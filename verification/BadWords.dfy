/**
 The bad-words processor masks exactly the tokens that would complete a bad word, so generation
 that avoids masked tokens never contains a bad word, and loses nothing else.
 */
module BadWords {
  import opened Basics
  /** A floating-point logit; finite values are exact. */
  datatype Logit = NegInf | Finite(value: real) | PosInf | NaN

  const SMALLEST_LOGIT := NegInf
  const NEUTRAL_LOGIT := Finite(0.0)

  /** Addition as in section 6 of IEEE 754-2019. */
  function Add(x: Logit, y: Logit): Logit {
    match (x, y)
    case (NaN, _) => NaN
    case (_, NaN) => NaN
    case (NegInf, PosInf) => NaN
    case (PosInf, NegInf) => NaN
    case (NegInf, _) => NegInf
    case (_, NegInf) => NegInf
    case (PosInf, _) => PosInf
    case (_, PosInf) => PosInf
    case (Finite(a), Finite(b)) => Finite(a + b)
  }

  lemma AddCommutes(x: Logit, y: Logit)
    ensures Add(x, y) == Add(y, x)
  {
  }

  type Word = seq<int>

  // ----- What is banned

  /** Choosing `token` after `past` completes `word`. */
  ghost predicate Completes(past: seq<int>, word: Word, token: int) {
    && 0 < |word| <= |past| + 1
    && word[|word| - 1] == token
    && past[|past| + 1 - |word|..] == word[..|word| - 1]
  }

  ghost predicate Banned(words: seq<Word>, past: seq<int>, token: int) {
    exists i :: 0 <= i < |words| && Completes(past, words[i], token)
  }

  /** The same among words of other lengths than one. */
  ghost predicate BannedByLong(words: seq<Word>, past: seq<int>, token: int) {
    && words != []
    && var last := words[|words| - 1];
      (BannedByLong(words[..|words| - 1], past, token) || (|last| != 1 && Completes(past, last, token)))
  }

  lemma {:induction false} BannedByLongIff(words: seq<Word>, past: seq<int>, token: int)
    ensures BannedByLong(words, past, token) <==>
      exists i :: 0 <= i < |words| && |words[i]| != 1 && Completes(past, words[i], token)
  {
    if words != [] {
      var init := words[..|words| - 1];
      BannedByLongIff(init, past, token);
      assert forall i :: 0 <= i < |init| ==> init[i] == words[i];
    }
  }

  /** A word of one token is completed by its token after any past. */
  lemma BannedIff(words: seq<Word>, past: seq<int>, token: int)
    ensures Banned(words, past, token) <==> [token] in words || BannedByLong(words, past, token)
  {
    BannedByLongIff(words, past, token);
    if [token] in words {
      var i :| 0 <= i < |words| && words[i] == [token];
      assert Completes(past, words[i], token);
    }
    if Banned(words, past, token) {
      var i :| 0 <= i < |words| && Completes(past, words[i], token);
      assert |words[i]| == 1 ==> words[i] == [token];
    }
  }

  function MaskedLogit(x: Logit, banned: bool): Logit { if banned then Add(x, SMALLEST_LOGIT) else x }

  /** The processed logits: banned tokens lose, all others are unchanged. */
  ghost predicate IsMask(words: seq<Word>, past: seq<int>, logits: seq<Logit>, out: seq<Logit>) {
    |out| == |logits| && forall t :: 0 <= t < |logits| ==> out[t] == MaskedLogit(logits[t], Banned(words, past, t))
  }

  ghost function Mask(words: seq<Word>, past: seq<int>, logits: seq<Logit>): (out: seq<Logit>)
    ensures IsMask(words, past, logits, out)
  {
    seq(|logits|, t requires 0 <= t < |logits| => MaskedLogit(logits[t], Banned(words, past, t)))
  }

  lemma MaskUnique(words: seq<Word>, past: seq<int>, logits: seq<Logit>, out: seq<Logit>)
    requires IsMask(words, past, logits, out)
    ensures out == Mask(words, past, logits)
  {
  }

  /**
   Where no logit is +inf or NaN, an entry is -inf after the call iff it was before or is banned; +inf
   and NaN escape.
   */
  lemma MaskedIff(words: seq<Word>, past: seq<int>, logits: seq<Logit>, out: seq<Logit>, t: nat)
    requires IsMask(words, past, logits, out) && t < |logits|
    ensures out[t] == NegInf <==> logits[t] == NegInf || (Banned(words, past, t) && logits[t].Finite?)
    ensures !Banned(words, past, t) ==> out[t] == logits[t]
  {
  }

  /** The condition matters: an infinite logit makes a banned token come out as NaN. */
  lemma InfiniteLogitEscapes()
    ensures exists words: seq<Word>, past: seq<int>, logits: seq<Logit>, out: seq<Logit> ::
      |logits| == 1 && IsMask(words, past, logits, out) && Banned(words, past, 0) && out[0] != NegInf
  {
    assert Completes([], [[0]][0], 0);
    assert IsMask([[0]], [], [PosInf], [NaN]) && [NaN][0] != NegInf;
  }

  // ----- Token ids

  predicate InVocab(token: int, vocabSize: nat) { 0 <= token < vocabSize }

  ghost predicate InBounds(words: seq<Word>, vocabSize: nat) {
    forall i :: 0 <= i < |words| ==> WordInBounds(words[i], vocabSize)
  }

  ghost predicate WordInBounds(word: Word, vocabSize: nat) {
    forall j :: 0 <= j < |word| ==> InVocab(word[j], vocabSize)
  }

  /** The offending ids of one word, in order. */
  ghost function InvalidIn(word: Word, vocabSize: nat): seq<int> {
    if word == [] then []
    else
      var last := word[|word| - 1];
      InvalidIn(word[..|word| - 1], vocabSize) + if InVocab(last, vocabSize) then [] else [last]
  }

  ghost function Invalid(words: seq<Word>, vocabSize: nat): seq<int> {
    if words == [] then [] else Invalid(words[..|words| - 1], vocabSize) + InvalidIn(words[|words| - 1], vocabSize)
  }

  lemma {:induction false} InvalidInEmpty(word: Word, vocabSize: nat)
    ensures InvalidIn(word, vocabSize) == [] <==> WordInBounds(word, vocabSize)
  {
    if word != [] { InvalidInEmpty(word[..|word| - 1], vocabSize); }
  }

  lemma {:induction false} InvalidEmpty(words: seq<Word>, vocabSize: nat)
    ensures Invalid(words, vocabSize) == [] <==> InBounds(words, vocabSize)
  {
    if words != [] {
      var init := words[..|words| - 1];
      InvalidEmpty(init, vocabSize);
      InvalidInEmpty(words[|words| - 1], vocabSize);
      InBoundsSnoc(words, vocabSize);
    }
  }

  lemma InBoundsSnoc(words: seq<Word>, vocabSize: nat)
    requires words != []
    ensures InBounds(words, vocabSize) <==>
      InBounds(words[..|words| - 1], vocabSize) && WordInBounds(words[|words| - 1], vocabSize)
  {
    var init := words[..|words| - 1];
    assert forall i :: 0 <= i < |init| ==> init[i] == words[i];
  }

  lemma InBoundsIff(words: seq<Word>, vocabSize: nat)
    ensures InBounds(words, vocabSize) <==>
      forall i, j :: 0 <= i < |words| && 0 <= j < |words[i]| ==> 0 <= words[i][j] < vocabSize
  {
    if InBounds(words, vocabSize) {
      forall i, j | 0 <= i < |words| && 0 <= j < |words[i]| ensures 0 <= words[i][j] < vocabSize {
        assert WordInBounds(words[i], vocabSize);
      }
    }
  }

  /** Offending ids are listed word by word and token by token, each where it stands. */
  lemma {:induction false} InvalidInJoin(a: Word, b: Word, token: int, vocabSize: nat)
    ensures InvalidIn(a + b, vocabSize) == InvalidIn(a, vocabSize) + InvalidIn(b, vocabSize)
    ensures InvalidIn([token], vocabSize) == if token < 0 || token >= vocabSize then [token] else []
  {
    assert [token][..0] == [];
    if b == [] {
      assert a + b == a;
    } else {
      InvalidInJoin(a, b[..|b| - 1], token, vocabSize);
      JoinSnoc(a, b);
      InitOfSnoc(a + b[..|b| - 1], b[|b| - 1]);
    }
  }

  lemma {:induction false} InvalidJoin(a: seq<Word>, b: seq<Word>, word: Word, vocabSize: nat)
    ensures Invalid(a + b, vocabSize) == Invalid(a, vocabSize) + Invalid(b, vocabSize)
    ensures Invalid([word], vocabSize) == InvalidIn(word, vocabSize)
  {
    assert [word][..0] == [];
    if b == [] {
      assert a + b == a;
    } else {
      InvalidJoin(a, b[..|b| - 1], word, vocabSize);
      JoinSnoc(a, b);
      InitOfSnoc(a + b[..|b| - 1], b[|b| - 1]);
    }
  }

  // ----- The processor

  /** Processed logits, or the exception: a bad id, a word without a last token, tensors of different sizes. */
  datatype Result = Ok(logits: seq<Logit>) | ValueError(invalid: seq<int>) | IndexError | RuntimeError

  /** The bias of one-token words. */
  ghost predicate IsWordBias(words: seq<Word>, bias: seq<Logit>) {
    forall t :: 0 <= t < |bias| ==> bias[t] == if [t] in words then SMALLEST_LOGIT else NEUTRAL_LOGIT
  }

  ghost predicate IsLastTokenBias(words: seq<Word>, past: seq<int>, bias: seq<Logit>) {
    forall t :: 0 <= t < |bias| ==> bias[t] == if BannedByLong(words, past, t) then SMALLEST_LOGIT else NEUTRAL_LOGIT
  }

  ghost predicate NotNegative(words: seq<Word>) {
    forall i, j :: 0 <= i < |words| && 0 <= j < |words[i]| ==> 0 <= words[i][j]
  }

  /** Writing the bias of this word fails. */
  ghost predicate Faulty(word: Word, past: seq<int>, vocabSize: nat) {
    |word| == 0 || (1 < |word| <= |past| + 1 && word[|word| - 1] >= vocabSize)
  }

  ghost predicate AnyFaulty(words: seq<Word>, past: seq<int>, vocabSize: nat) {
    exists i :: 0 <= i < |words| && Faulty(words[i], past, vocabSize)
  }

  // ----- Adding tensors

  predicate Broadcasts(m: nat, n: nat) { m == n || m == 1 || n == 1 }

  /** A tensor of one element stands for as many as there are in the other. */
  function Widened(x: seq<Logit>, n: nat): (r: seq<Logit>)
    requires |x| == n || |x| == 1
    ensures |r| == n && forall t :: 0 <= t < n ==> r[t] == if |x| == 1 then x[0] else x[t]
  {
    if |x| == 1 then seq(n, _ => x[0]) else x
  }

  /** Element-wise addition, with broadcasting. */
  function Added(x: seq<Logit>, y: seq<Logit>): (z: seq<Logit>)
    requires Broadcasts(|x|, |y|)
    ensures |z| == if |x| == 1 then |y| else |x|
    ensures forall t :: 0 <= t < |z| ==> z[t] == Add(if |x| == 1 then x[0] else x[t], if |y| == 1 then y[0] else y[t])
  {
    var n := if |x| == 1 then |y| else |x|;
    seq(n, t requires 0 <= t < n => Add(Widened(x, n)[t], Widened(y, n)[t]))
  }

  /**
   A bias over `m` tokens masks these logits right: it is of their size, or it is of size one and
   either does not ban the only token it knows or has nothing else to ban.
   */
  ghost predicate BiasFits(words: seq<Word>, m: nat, logits: seq<Logit>) {
    || m == |logits|
    || (m == 1 && ([0] in words ==> forall t :: 0 < t < |logits| ==> Add(logits[t], SMALLEST_LOGIT) == logits[t]))
  }

  lemma SameSizeIsMask(words: seq<Word>, past: seq<int>, logits: seq<Logit>, bias: seq<Logit>, last: seq<Logit>,
                       sum: seq<Logit>)
    requires |bias| == |last| == |logits| && sum == Added(Added(logits, bias), last)
    requires IsWordBias(words, bias) && IsLastTokenBias(words, past, last)
    ensures IsMask(words, past, logits, sum)
  {
    forall t: nat | t < |logits| ensures sum[t] == MaskedLogit(logits[t], Banned(words, past, t)) {
      BannedIff(words, past, t);
      BothBiases(logits[t], [t] in words, BannedByLong(words, past, t), bias[t], last[t]);
    }
  }

  lemma BothBiases(x: Logit, short: bool, long: bool, bias: Logit, last: Logit)
    requires bias == if short then SMALLEST_LOGIT else NEUTRAL_LOGIT
    requires last == if long then SMALLEST_LOGIT else NEUTRAL_LOGIT
    ensures Add(Add(x, bias), last) == MaskedLogit(x, short || long)
  {
  }

  /** Words over a vocabulary of one ban no other token. */
  lemma OnlyFirstBanned(words: seq<Word>, past: seq<int>, t: nat)
    requires InBounds(words, 1) && t > 0
    ensures !Banned(words, past, t)
  {
    forall i | 0 <= i < |words| ensures !Completes(past, words[i], t) {
      assert WordInBounds(words[i], 1);
      assert words[i] != [] ==> InVocab(words[i][|words[i]| - 1], 1);
    }
  }

  lemma OneForAll(words: seq<Word>, past: seq<int>, logits: seq<Logit>, bias: seq<Logit>, last: seq<Logit>,
                  sum: seq<Logit>, t: nat)
    requires |bias| == 1 && |last| == |logits| && |logits| > 1 && sum == Added(Added(logits, bias), last)
    requires InBounds(words, 1) && IsWordBias(words, bias) && IsLastTokenBias(words, past, last) && t < |logits|
    ensures t == 0 ==> sum[t] == MaskedLogit(logits[t], Banned(words, past, t))
    ensures t > 0 ==> !Banned(words, past, t) && sum[t] == MaskedLogit(logits[t], [0] in words)
  {
    BannedIff(words, past, t);
    if t > 0 { OnlyFirstBanned(words, past, t); }
  }

  lemma SumIsMaskIff(words: seq<Word>, past: seq<int>, logits: seq<Logit>, bias: seq<Logit>, last: seq<Logit>,
                     sum: seq<Logit>)
    requires |last| == |logits| && Broadcasts(|bias|, |logits|) && sum == Added(Added(logits, bias), last)
    requires InBounds(words, |bias|) && IsWordBias(words, bias) && IsLastTokenBias(words, past, last)
    ensures IsMask(words, past, logits, sum) <==> BiasFits(words, |bias|, logits)
  {
    if |bias| == |logits| {
      SameSizeIsMask(words, past, logits, bias, last, sum);
    } else if |logits| > 1 {
      forall t: nat | t < |logits|
        ensures t == 0 ==> sum[t] == MaskedLogit(logits[t], Banned(words, past, t))
        ensures t > 0 ==> !Banned(words, past, t) && sum[t] == MaskedLogit(logits[t], [0] in words)
      {
        OneForAll(words, past, logits, bias, last, sum, t);
      }
    }
  }

  /** The sizes matter: a bias made for one token, and banning it, does not fit two finite logits. */
  lemma OneTokenBiasMisfits()
    ensures !BiasFits([[0]], 1, [Finite(0.0), Finite(0.0)])
  {
    var logits := [Finite(0.0), Finite(0.0)];
    assert Add(logits[1], SMALLEST_LOGIT) != logits[1];
  }

  class Processor {
    const badWords: seq<Word>
    var wordBias: Option<seq<Logit>>

    /** The cached bias, once there, is what recomputing it would give. */
    ghost predicate Valid()
      reads this
    {
      wordBias.Some? ==> InBounds(badWords, |wordBias.value|) && IsWordBias(badWords, wordBias.value)
    }

    constructor (badWords: seq<Word>)
      ensures Valid() && this.badWords == badWords && wordBias == None
    {
      this.badWords := badWords;
      wordBias := None;
    }

    /** `_check_token_ids_bounds` */
    method CheckTokenIdsBounds(vocabSize: nat) returns (invalid: seq<int>)
      ensures invalid == Invalid(badWords, vocabSize)
    {
      invalid := [];
      for i := 0 to |badWords|
        invariant invalid == Invalid(badWords[..i], vocabSize)
      {
        ghost var before := invalid;
        var word := badWords[i];
        for j := 0 to |word|
          invariant invalid == before + InvalidIn(word[..j], vocabSize)
        {
          assert word[..j + 1][..j] == word[..j];
          if !InVocab(word[j], vocabSize) {
            invalid := invalid + [word[j]];
          }
        }
        assert word[..|word|] == word && badWords[..i + 1][..i] == badWords[..i];
      }
      assert badWords[..|badWords|] == badWords;
    }

    /** `_init_word_bias`; the bias stays unset when a token id is out of bounds. */
    method InitWordBias(vocabSize: nat) returns (invalid: seq<int>)
      requires wordBias == None
      modifies this
      ensures invalid == Invalid(badWords, vocabSize)
      ensures invalid != [] ==> wordBias == None
      ensures invalid == [] ==> wordBias.Some? && |wordBias.value| == vocabSize && Valid()
    {
      invalid := CheckTokenIdsBounds(vocabSize);
      if invalid != [] {
        return;
      }
      InvalidEmpty(badWords, vocabSize);
      var bias := seq(vocabSize, _ => NEUTRAL_LOGIT);
      for i := 0 to |badWords|
        invariant |bias| == vocabSize && IsWordBias(badWords[..i], bias)
      {
        assert badWords[..i + 1] == badWords[..i] + [badWords[i]];
        if |badWords[i]| == 1 {
          assert badWords[i] == [badWords[i][0]] && InVocab(badWords[i][0], vocabSize);
          bias := bias[badWords[i][0] := SMALLEST_LOGIT];
        }
      }
      assert badWords[..|badWords|] == badWords;
      wordBias := Some(bias);
    }

    /** The bias of longer words; an empty word has no last token, and a last token may lie beyond the logits. */
    method LastTokenBias(past: seq<int>, vocabSize: nat) returns (bias: Option<seq<Logit>>)
      requires NotNegative(badWords)
      ensures bias == None <==> AnyFaulty(badWords, past, vocabSize)
      ensures bias.Some? ==> |bias.value| == vocabSize && IsLastTokenBias(badWords, past, bias.value)
    {
      var b := seq(vocabSize, _ => NEUTRAL_LOGIT);
      for i := 0 to |badWords|
        invariant |b| == vocabSize && IsLastTokenBias(badWords[..i], past, b)
        invariant forall k :: 0 <= k < i ==> !Faulty(badWords[k], past, vocabSize)
      {
        var word := badWords[i];
        assert badWords[..i + 1][..i] == badWords[..i];
        if |word| == 1 || |word| > |past| + 1 {
          continue;
        }
        if |word| == 0 || word[|word| - 1] >= vocabSize {
          assert Faulty(badWords[i], past, vocabSize);
          return None;
        }
        var prefixLength := |word| - 1;
        var lastTokenId := word[prefixLength];
        assert 0 <= badWords[i][prefixLength];
        var isMatch := past[|past| - prefixLength..] == word[..prefixLength];
        b := b[lastTokenId := Add(b[lastTokenId], if isMatch then SMALLEST_LOGIT else NEUTRAL_LOGIT)];
      }
      assert badWords[..|badWords|] == badWords;
      bias := Some(b);
    }

    /**
     `__call__`. With logits of one size the cached bias and a recomputed one give the same result.
     Two sizes can be added only if one of them is one, and then the result is a mask exactly where the
     cached bias fits.
     */
    method Process(past: seq<int>, logits: seq<Logit>) returns (r: Result)
      requires Valid()
      modifies this
      ensures Valid() && (old(wordBias).Some? ==> wordBias == old(wordBias))
      ensures wordBias.Some? && old(wordBias) == None ==> |wordBias.value| == |logits|
      ensures r.ValueError? <==> old(wordBias) == None && !InBounds(badWords, |logits|)
      ensures r.ValueError? ==> r.invalid == Invalid(badWords, |logits|)
      ensures r.IndexError? <==> !r.ValueError? && AnyFaulty(badWords, past, |logits|)
      ensures r.RuntimeError? <==>
        && !r.IndexError? && old(wordBias).Some? && |old(wordBias).value| != |logits|
        && |old(wordBias).value| != 1 && |logits| != 1
      ensures r.Ok? ==> wordBias.Some?
      ensures r.Ok? ==> (IsMask(badWords, past, logits, r.logits) <==> BiasFits(badWords, |wordBias.value|, logits))
    {
      InvalidEmpty(badWords, |logits|);
      if wordBias == None {
        var invalid := InitWordBias(|logits|);
        if invalid != [] {
          return ValueError(invalid);
        }
      }
      BoundedNotNegative(badWords, |wordBias.value|);
      var lastTokenBias := LastTokenBias(past, |logits|);
      if lastTokenBias == None {
        return IndexError;
      }
      if !Broadcasts(|wordBias.value|, |logits|) {
        return RuntimeError;
      }
      var sum := Added(Added(logits, wordBias.value), lastTokenBias.value);
      SumIsMaskIff(badWords, past, logits, wordBias.value, lastTokenBias.value, sum);
      return Ok(sum);
    }
  }

  lemma BoundedNotNegative(words: seq<Word>, vocabSize: nat)
    requires InBounds(words, vocabSize)
    ensures NotNegative(words)
  {
    forall i, j | 0 <= i < |words| && 0 <= j < |words[i]| ensures 0 <= words[i][j] {
      assert WordInBounds(words[i], vocabSize);
      assert InVocab(words[i][j], vocabSize);
    }
  }

  /** With ids in bounds, only an empty word is at fault. */
  lemma FaultyIffEmpty(words: seq<Word>, past: seq<int>, vocabSize: nat)
    requires InBounds(words, vocabSize)
    ensures AnyFaulty(words, past, vocabSize) <==> [] in words
  {
    if [] in words {
      var i :| 0 <= i < |words| && words[i] == [];
      assert Faulty(words[i], past, vocabSize);
    }
    forall i | 0 <= i < |words| && Faulty(words[i], past, vocabSize) ensures words[i] == [] {
      assert WordInBounds(words[i], vocabSize);
      assert |words[i]| > 0 ==> InVocab(words[i][|words[i]| - 1], vocabSize);
    }
  }

  // ----- Whole runs

  /** `word` is a contiguous block of `text`. */
  ghost predicate Contains(text: seq<int>, word: Word) {
    exists k: nat :: BlockAt(text, word, k)
  }

  ghost predicate BlockAt(text: seq<int>, word: Word, k: nat) {
    k + |word| <= |text| && text[k..k + |word|] == word
  }

  ghost predicate Clean(words: seq<Word>, text: seq<int>) {
    forall i :: 0 <= i < |words| ==> !Contains(text, words[i])
  }

  /** A word ends at the last token iff that token completes it. */
  lemma CompletesIff(past: seq<int>, word: Word, token: int)
    requires word != []
    ensures Completes(past, word, token) <==> |word| <= |past| + 1 && BlockAt(past + [token], word, |past| + 1 - |word|)
  {
    if |word| <= |past| + 1 {
      var k := |past| + 1 - |word|;
      var text := past + [token];
      assert text[k..k + |word|] == past[k..] + [token];
      assert word == word[..|word| - 1] + [word[|word| - 1]];
      if BlockAt(text, word, k) { assert past[k..] == word[..|word| - 1]; }
    }
  }

  /** Extending a text adds a word iff the new token completes it. */
  lemma ContainsSnoc(past: seq<int>, word: Word, token: int)
    requires word != []
    ensures Contains(past + [token], word) <==> Contains(past, word) || Completes(past, word, token)
  {
    var text := past + [token];
    CompletesIff(past, word, token);
    forall k: nat | k + |word| <= |past| ensures BlockAt(text, word, k) <==> BlockAt(past, word, k) {
      assert text[k..k + |word|] == past[k..k + |word|];
    }
    if Contains(text, word) {
      var k: nat :| BlockAt(text, word, k);
      assert k + |word| <= |past| ==> BlockAt(past, word, k);
    }
    if Contains(past, word) {
      var k: nat :| BlockAt(past, word, k);
      assert BlockAt(text, word, k);
    }
  }

  lemma CleanSnoc(words: seq<Word>, past: seq<int>, token: int)
    requires [] !in words
    ensures Clean(words, past + [token]) <==> Clean(words, past) && !Banned(words, past, token)
  {
    forall i | 0 <= i < |words|
      ensures Contains(past + [token], words[i]) <==> Contains(past, words[i]) || Completes(past, words[i], token)
    {
      ContainsSnoc(past, words[i], token);
    }
  }

  /** Every token of `run` was allowed when it was chosen. */
  ghost predicate Allowed(words: seq<Word>, past: seq<int>, run: seq<int>) {
    forall i :: 0 <= i < |run| ==> !Banned(words, past + run[..i], run[i])
  }

  /** The runs that the mask allows are exactly those that bring in no bad word. */
  lemma {:induction false} AllowedIsClean(words: seq<Word>, past: seq<int>, run: seq<int>)
    requires [] !in words && Clean(words, past)
    ensures Allowed(words, past, run) <==> Clean(words, past + run)
  {
    if run == [] {
      assert past + run == past;
    } else {
      var n := |run| - 1;
      AllowedIsClean(words, past, run[..n]);
      CleanSnoc(words, past + run[..n], run[n]);
      assert past + run == past + run[..n] + [run[n]];
      forall i | 0 <= i < n ensures run[..n][..i] == run[..i] { }
      assert Allowed(words, past, run) <==> Allowed(words, past, run[..n]) && !Banned(words, past + run[..n], run[n]);
    }
  }

  ghost predicate NoneInfinite(logits: seq<Logit>) {
    forall t :: 0 <= t < |logits| ==> logits[t] == NegInf || logits[t].Finite?
  }

  /** A model: the logits after a text, over a fixed vocabulary, never +inf or NaN. */
  ghost predicate IsModel(model: seq<int> -> seq<Logit>, vocabSize: nat) {
    forall text: seq<int> :: |model(text)| == vocabSize && NoneInfinite(model(text))
  }

  /** Any way of choosing a token; one that is -inf is never chosen and ends the run. */
  type Sampler = (seq<int>, seq<Logit>) -> int

  /** What the sampler chooses after `text`, from the masked logits. */
  ghost function Choice(words: seq<Word>, model: seq<int> -> seq<Logit>, sampler: Sampler, text: seq<int>): int {
    sampler(text, Mask(words, text, model(text)))
  }

  /** The choice after `text` is no token, or a masked one. */
  ghost predicate Refused(words: seq<Word>, model: seq<int> -> seq<Logit>, sampler: Sampler, text: seq<int>) {
    var token, masked := Choice(words, model, sampler, text), Mask(words, text, model(text));
    token < 0 || token >= |masked| || masked[token] == NegInf
  }

  /**
   Generation with the processor between the model and the sampler: every token is the sampler's
   choice, the run stops early only at a refused choice, and no bad word comes in.
   */
  method Generate(processor: Processor, model: seq<int> -> seq<Logit>, sampler: Sampler, past: seq<int>, steps: nat,
                  vocabSize: nat)
    returns (text: seq<int>)
    requires processor.Valid() && IsModel(model, vocabSize)
    requires processor.wordBias.Some? ==> |processor.wordBias.value| == vocabSize
    requires InBounds(processor.badWords, vocabSize) && [] !in processor.badWords && Clean(processor.badWords, past)
    modifies processor
    ensures past <= text && Clean(processor.badWords, text)
    ensures forall i :: |past| <= i < |text| ==> text[i] == Choice(processor.badWords, model, sampler, text[..i])
    ensures forall i :: |past| <= i < |text| ==> !Refused(processor.badWords, model, sampler, text[..i])
    ensures |text| == |past| + steps || (|text| < |past| + steps && Refused(processor.badWords, model, sampler, text))
  {
    text := past;
    for n := 0 to steps
      invariant past <= text && |text| == |past| + n && Clean(processor.badWords, text)
      invariant forall i :: |past| <= i < |text| ==> text[i] == Choice(processor.badWords, model, sampler, text[..i])
      invariant forall i :: |past| <= i < |text| ==> !Refused(processor.badWords, model, sampler, text[..i])
      invariant processor.Valid() && (processor.wordBias.Some? ==> |processor.wordBias.value| == vocabSize)
    {
      var logits := model(text);
      FaultyIffEmpty(processor.badWords, text, vocabSize);
      var r := processor.Process(text, logits);
      MaskUnique(processor.badWords, text, logits, r.logits);
      var token := sampler(text, r.logits);
      if token < 0 || token >= vocabSize || r.logits[token] == NegInf {
        return;
      }
      assert logits[token] == NegInf || logits[token].Finite?;
      MaskedIff(processor.badWords, text, logits, r.logits, token);
      CleanSnoc(processor.badWords, text, token);
      ghost var longer := text + [token];
      assert longer[..|text|] == text && forall i :: 0 <= i <= |text| ==> longer[..i] == text[..i];
      text := text + [token];
    }
  }
}
