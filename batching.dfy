/** Cutting the list of texts into batches of at most `BATCH_SIZE`, the way
    `for start in range(0, n, BATCH_SIZE): texts[start:start + BATCH_SIZE]`
    does, and the notebook's translation loop, which sends the batches one
    after the other and extends one list with every batch's translations. */
module Batching {
  import opened Wrappers
  import opened DeepL

  /** At most this many texts go in one request (DeepL accepts 50). */
  const BATCH_SIZE: nat := 45

  function Min(a: int, b: int): int
  {
    if a < b then a else b
  }

  /** `xs[start:start + BATCH_SIZE]` for a `start` the loop reaches. */
  function Batch<T>(xs: seq<T>, start: nat): (b: seq<T>)
    requires start < |xs|
    ensures 0 < |b| <= BATCH_SIZE
  {
    xs[start..Min(start + BATCH_SIZE, |xs|)]
  }

  /** The batches for `start` in `range(from, len(xs), BATCH_SIZE)`. */
  function BatchesFrom<T>(xs: seq<T>, from: nat): seq<seq<T>>
    decreases |xs| - from
  {
    if from >= |xs| then [] else [Batch(xs, from)] + BatchesFrom(xs, from + BATCH_SIZE)
  }

  /** The batches of the whole list. */
  function Batches<T>(xs: seq<T>): seq<seq<T>>
  {
    BatchesFrom(xs, 0)
  }

  /** The concatenation of a list of lists. */
  function Concat<T>(ss: seq<seq<T>>): seq<T>
  {
    if |ss| == 0 then [] else ss[0] + Concat(ss[1..])
  }

  /** The batches from `from` on are the batch at `from` and then the
      batches from the next start. */
  lemma {:induction false} BatchesFromStep<T>(xs: seq<T>, from: nat)
    requires from < |xs|
    ensures BatchesFrom(xs, from) == [Batch(xs, from)] + BatchesFrom(xs, Min(from + BATCH_SIZE, |xs|))
  {
    if from + BATCH_SIZE > |xs| {
      assert BatchesFrom(xs, from + BATCH_SIZE) == [];
    }
  }

  lemma {:induction false} BatchesFromConcat<T>(xs: seq<T>, from: nat)
    requires from <= |xs|
    ensures Concat(BatchesFrom(xs, from)) == xs[from..]
    decreases |xs| - from
  {
    if from < |xs| {
      var next := Min(from + BATCH_SIZE, |xs|);
      BatchesFromStep(xs, from);
      BatchesFromConcat(xs, next);
      assert BatchesFrom(xs, from)[1..] == BatchesFrom(xs, next);
      assert xs[from..] == xs[from..next] + xs[next..];
    }
  }

  lemma {:induction false} BatchesFromCount<T>(xs: seq<T>, from: nat)
    requires from <= |xs|
    ensures |BatchesFrom(xs, from)| == (|xs| - from + BATCH_SIZE - 1) / BATCH_SIZE
    decreases |xs| - from
  {
    if from < |xs| {
      var next := Min(from + BATCH_SIZE, |xs|);
      BatchesFromStep(xs, from);
      BatchesFromCount(xs, next);
    }
  }

  lemma {:induction false} BatchesFromAt<T>(xs: seq<T>, from: nat)
    requires from <= |xs|
    ensures forall j :: 0 <= j < |BatchesFrom(xs, from)| ==>
      from + j * BATCH_SIZE < |xs| &&
      BatchesFrom(xs, from)[j] == xs[from + j * BATCH_SIZE..Min(from + j * BATCH_SIZE + BATCH_SIZE, |xs|)]
    decreases |xs| - from
  {
    var bs := BatchesFrom(xs, from);
    if from < |xs| {
      var next := Min(from + BATCH_SIZE, |xs|);
      var rest := BatchesFrom(xs, next);
      BatchesFromStep(xs, from);
      BatchesFromAt(xs, next);
      forall j | 0 <= j < |bs|
        ensures from + j * BATCH_SIZE < |xs|
        ensures bs[j] == xs[from + j * BATCH_SIZE..Min(from + j * BATCH_SIZE + BATCH_SIZE, |xs|)]
      {
        if j > 0 {
          assert bs[j] == rest[j - 1];
          assert next == from + BATCH_SIZE;
          assert from + j * BATCH_SIZE == next + (j - 1) * BATCH_SIZE;
        }
      }
    }
  }

  /** `range(0, n, BATCH_SIZE)` cuts the list into `ceil(n / BATCH_SIZE)`
      consecutive batches of 1 to `BATCH_SIZE` texts, batch `j` starting at
      `j * BATCH_SIZE`; put back together they are the list again. */
  lemma {:induction false} BatchesSplit<T>(xs: seq<T>)
    ensures Concat(Batches(xs)) == xs
    ensures |Batches(xs)| == (|xs| + BATCH_SIZE - 1) / BATCH_SIZE
    ensures forall b :: b in Batches(xs) ==> 0 < |b| <= BATCH_SIZE
    ensures forall j :: 0 <= j < |Batches(xs)| ==>
      j * BATCH_SIZE < |xs| &&
      Batches(xs)[j] == xs[j * BATCH_SIZE..Min(j * BATCH_SIZE + BATCH_SIZE, |xs|)]
  {
    BatchesFromConcat(xs, 0);
    BatchesFromCount(xs, 0);
    BatchesFromAt(xs, 0);
    assert xs[0..] == xs;
    forall b | b in Batches(xs)
      ensures 0 < |b| <= BATCH_SIZE
    {
      var j :| 0 <= j < |Batches(xs)| && Batches(xs)[j] == b;
    }
  }

  /** 46 texts make a full batch and a batch of one; 45 make one batch; none
      make no batch at all. */
  lemma {:induction false} BatchesExamples(xs: seq<string>)
    ensures |xs| == 46 ==> |Batches(xs)| == 2 && |Batches(xs)[0]| == 45 && |Batches(xs)[1]| == 1
    ensures |xs| == 45 ==> Batches(xs) == [xs]
    ensures |xs| == 0 ==> Batches(xs) == []
  {
    if |xs| == 46 {
      BatchesSplit(xs);
    } else if |xs| == 45 {
      assert BatchesFrom(xs, 45) == [];
      assert xs[0..45] == xs;
    }
  }

  /** What the notebook's loop ends with, given the batches from `from` on:
      the concatenated translations, or the error of the first batch that
      failed (the source re-raises it, so no later batch is sent). */
  function TranslateFrom(account: Account, targetLang: string, service: Request -> Reply, texts: seq<string>, from: nat): Result<seq<string>, Error>
    decreases |texts| - from
  {
    if from >= |texts| then Success([])
    else
      match TranslateBatch(account, targetLang, service, Batch(texts, from))
      case Failure(e) => Failure(e)
      case Success(ts) =>
        match TranslateFrom(account, targetLang, service, texts, from + BATCH_SIZE)
        case Failure(e) => Failure(e)
        case Success(rest) => Success(ts + rest)
  }

  /** The batches `bs` sent one request each, in order: the translations
      of all of them concatenated, or the error of the first that failed,
      after which nothing more is sent. */
  function SendAll(account: Account, targetLang: string, service: Request -> Reply, bs: seq<seq<string>>): Result<seq<string>, Error>
  {
    if |bs| == 0 then Success([])
    else
      match TranslateBatch(account, targetLang, service, bs[0])
      case Failure(e) => Failure(e)
      case Success(ts) =>
        match SendAll(account, targetLang, service, bs[1..])
        case Failure(e) => Failure(e)
        case Success(rest) => Success(ts + rest)
  }

  /** The notebook's loop sends exactly the batches `BatchesFrom` cuts, one
      request each, so every request carries 1 to `BATCH_SIZE` texts (see
      `BatchesSplit`). */
  lemma {:induction false} TranslateFromBatches(account: Account, targetLang: string, service: Request -> Reply, texts: seq<string>, from: nat)
    ensures TranslateFrom(account, targetLang, service, texts, from)
      == SendAll(account, targetLang, service, BatchesFrom(texts, from))
    decreases |texts| - from
  {
    if from < |texts| {
      var bs := BatchesFrom(texts, from);
      assert bs[0] == Batch(texts, from);
      assert bs[1..] == BatchesFrom(texts, from + BATCH_SIZE);
      TranslateFromBatches(account, targetLang, service, texts, from + BATCH_SIZE);
    }
  }

  /** `r` with `prefix` put in front of its translations. */
  function Prefixed(prefix: seq<string>, r: Result<seq<string>, Error>): Result<seq<string>, Error>
  {
    match r
    case Success(ts) => Success(prefix + ts)
    case Failure(e) => Failure(e)
  }

  lemma {:induction false} PrefixedNothing(r: Result<seq<string>, Error>)
    ensures Prefixed([], r) == r
  {
    if r.Success? {
      assert [] + r.value == r.value;
    }
  }

  lemma {:induction false} PrefixedTwice(p: seq<string>, q: seq<string>, r: Result<seq<string>, Error>)
    ensures Prefixed(p, Prefixed(q, r)) == Prefixed(p + q, r)
  {
    if r.Success? {
      assert p + (q + r.value) == (p + q) + r.value;
    }
  }

  /** The notebook's translation loop (`translated_texts.extend` batch by
      batch): it ends with exactly what `TranslateFrom` says of the whole
      list. */
  method TranslateAll(account: Account, targetLang: string, service: Request -> Reply, texts: seq<string>)
    returns (r: Result<seq<string>, Error>)
    ensures r == TranslateFrom(account, targetLang, service, texts, 0)
  {
    var translated: seq<string> := [];
    var start: nat := 0;
    PrefixedNothing(TranslateFrom(account, targetLang, service, texts, 0));
    while start < |texts|
      invariant TranslateFrom(account, targetLang, service, texts, 0)
        == Prefixed(translated, TranslateFrom(account, targetLang, service, texts, start))
      decreases |texts| - start
    {
      var batch := texts[start..Min(start + BATCH_SIZE, |texts|)];
      var reply := TranslateBatch(account, targetLang, service, batch);
      if reply.Failure? {
        return Failure(reply.error);
      }
      assert TranslateFrom(account, targetLang, service, texts, start)
        == Prefixed(reply.value, TranslateFrom(account, targetLang, service, texts, start + BATCH_SIZE));
      PrefixedTwice(translated, reply.value, TranslateFrom(account, targetLang, service, texts, start + BATCH_SIZE));
      translated := translated + reply.value;
      start := start + BATCH_SIZE;
    }
    assert translated + [] == translated;
    r := Success(translated);
  }

  /** A service that answers every non-empty batch with exactly one
      translation per text (whatever the translations are). */
  ghost predicate AnswersInFull(account: Account, targetLang: string, service: Request -> Reply)
  {
    forall texts: seq<string> :: texts != [] ==>
      var reply := service(BatchRequest(account, targetLang, texts));
      reply.Answer? && reply.translations.Some? && |reply.translations.value| == |texts|
  }

  /** Against such a service the loop succeeds with one translation per
      text, so the later `zip` pairs every unit with a translation. */
  lemma {:induction false} TranslateFromInFull(account: Account, targetLang: string, service: Request -> Reply, texts: seq<string>, from: nat)
    requires AnswersInFull(account, targetLang, service)
    requires from <= |texts|
    ensures TranslateFrom(account, targetLang, service, texts, from).Success?
    ensures |TranslateFrom(account, targetLang, service, texts, from).value| == |texts| - from
    decreases |texts| - from
  {
    if from < |texts| {
      var b := Batch(texts, from);
      var reply := service(BatchRequest(account, targetLang, b));
      assert reply.Answer? && reply.translations.Some? && |reply.translations.value| == |b|;
      TranslateFromInFull(account, targetLang, service, texts, Min(from + BATCH_SIZE, |texts|));
      if from + BATCH_SIZE > |texts| {
        assert TranslateFrom(account, targetLang, service, texts, from + BATCH_SIZE) == Success([]);
      }
    }
  }

  /** Against a service that translates each text `t` to `f(t)`, the loop
      ends with `f` of every text, in the order of the texts: translation
      `i` is the translation of text `i`, batches notwithstanding. */
  lemma {:induction false} TranslateFromEach(account: Account, targetLang: string, f: string -> string, texts: seq<string>, from: nat)
    requires from <= |texts|
    ensures TranslateFrom(account, targetLang, Translator(f), texts, from).Success?
    ensures |TranslateFrom(account, targetLang, Translator(f), texts, from).value| == |texts| - from
    ensures forall i :: 0 <= i < |texts| - from ==>
      TranslateFrom(account, targetLang, Translator(f), texts, from).value[i] == f(texts[from + i])
    decreases |texts| - from
  {
    if from < |texts| {
      var next := Min(from + BATCH_SIZE, |texts|);
      var b := Batch(texts, from);
      BatchAnswersEach(account, targetLang, f, b);
      TranslateFromEach(account, targetLang, f, texts, next);
      if from + BATCH_SIZE > |texts| {
        assert TranslateFrom(account, targetLang, Translator(f), texts, from + BATCH_SIZE) == Success([]);
      }
      var ts := TranslateBatch(account, targetLang, Translator(f), b).value;
      var rest := TranslateFrom(account, targetLang, Translator(f), texts, next).value;
      var all := TranslateFrom(account, targetLang, Translator(f), texts, from).value;
      assert all == ts + rest;
      forall i | 0 <= i < |texts| - from
        ensures all[i] == f(texts[from + i])
      {
        if i < |b| {
          assert all[i] == ts[i] && b[i] == texts[from + i];
        } else {
          assert all[i] == rest[i - |b|];
        }
      }
    }
  }

  /** The whole loop against a service that translates each text. */
  lemma {:induction false} TranslateAllEach(account: Account, targetLang: string, f: string -> string, texts: seq<string>)
    ensures TranslateFrom(account, targetLang, Translator(f), texts, 0).Success?
    ensures |TranslateFrom(account, targetLang, Translator(f), texts, 0).value| == |texts|
    ensures forall i :: 0 <= i < |texts| ==> TranslateFrom(account, targetLang, Translator(f), texts, 0).value[i] == f(texts[i])
  {
    TranslateFromEach(account, targetLang, f, texts, 0);
  }
}
