/**
 * `main` and `getInfo`: every stored plate without a result gets one
 * lookup attempt, in list order, and the store is written after each.
 *
 * What the program reaches through the network, the image model, the clock
 * and the HTML and JSON libraries is an `Env`: the text the model read off
 * the captcha in attempt `k` (or the exception that stopped it), the
 * response to a request URL in attempt `k` (or its exception), the clock
 * reading in attempt `k`, the document a response body loads as and the
 * serialisation of a parse result. Only the recognition, the request and
 * the clock depend on the attempt number; loading and serialising depend on
 * their input alone.
 */
module Batch {
  import opened Wrappers
  import opened JsText
  import opened Cleaner
  import opened ResultPage

  /** A settled promise: a value, or the message of the exception it threw. */
  datatype Outcome<T> = Ok(value: T) | Exn(message: string)

  datatype Env = Env(
    recognise: nat -> Outcome<string>,       // getCaptchaFile + analyzeImageWithGemini, attempt k
    fetch: (nat, string) -> Outcome<string>, // instanceFetch(url).text(), attempt k, URL url
    load: string -> Document,                // cheerio's view of a response body
    clock: nat -> string,                    // new Date().toISOString() during attempt k
    serialize: ParseResult -> string)        // JSON.stringify of a parse result

  /** JSON.stringify of an object is never the empty string. */
  ghost predicate SerializesNonEmpty(env: Env)
  {
    forall r :: env.serialize(r) != ""
  }

  const InfoPrefix: string := "https://www.apeseg.org.pe/php/soat/web/?placa="
  const CaptchaParam: string := "&captcha="

  /** The lookup URL `getInfo` requests: the plate verbatim, the answer upper-cased. */
  function GetInfoUrl(placa: string, captcha: string): (url: string)
    ensures |url| == |InfoPrefix| + |placa| + |CaptchaParam| + |captcha|
    ensures url[..|InfoPrefix|] == InfoPrefix
  {
    InfoPrefix + placa + CaptchaParam + ToUpper(captcha)
  }

  /** The URL splits back into the plate and the upper-cased answer at known positions. */
  lemma UrlParts(placa: string, captcha: string)
    ensures var url := GetInfoUrl(placa, captcha); var n := |InfoPrefix| + |placa|;
      && url[..|InfoPrefix|] == InfoPrefix
      && url[|InfoPrefix|..n] == placa
      && url[n..n + |CaptchaParam|] == CaptchaParam
      && url[n + |CaptchaParam|..] == ToUpper(captcha)
  {
    var url := GetInfoUrl(placa, captcha);
    var n := |InfoPrefix| + |placa|;
    assert url == ((InfoPrefix + placa) + CaptchaParam) + ToUpper(captcha);
    assert url[..n + |CaptchaParam|] == InfoPrefix + placa + CaptchaParam;
    assert url[..n] == InfoPrefix + placa;
  }

  /**
   * For a plate without `&` the URL determines the plate and the
   * case-folded answer; answers differing only in letter case give the
   * same URL.
   */
  lemma UrlInjective(p1: string, c1: string, p2: string, c2: string)
    requires '&' !in p1 && '&' !in p2
    requires GetInfoUrl(p1, c1) == GetInfoUrl(p2, c2)
    ensures p1 == p2 && ToUpper(c1) == ToUpper(c2)
  {
    UrlParts(p1, c1);
    UrlParts(p2, c2);
    var u := GetInfoUrl(p1, c1);
    var m := |InfoPrefix|;
    assert u[m + |p1|] == '&' && u[m + |p2|] == '&';
    assert forall j :: 0 <= j < |p1| ==> u[m + j] == p1[j];
    assert forall j :: 0 <= j < |p2| ==> u[m + j] == p2[j];
    assert |p1| == |p2|;
  }

  lemma UrlCaseInsensitive(placa: string, c1: string, c2: string)
    requires |c1| == |c2| && forall i :: 0 <= i < |c1| ==> FoldEq(c1[i], c2[i])
    ensures GetInfoUrl(placa, c1) == GetInfoUrl(placa, c2)
  {
    assert ToUpper(c1) == ToUpper(c2);
  }

  /** The stored fields of one plate record (`Placa` in the store's schema). */
  datatype PlacaValue = PlacaValue(
    placa: string,
    result: Option<string>,
    error: Option<string>,
    html: Option<string>,
    lastCaptcha: Option<string>)

  /** `!placa.result`: no result yet, or the empty string. */
  predicate IsPending(v: PlacaValue)
    ensures !IsPending(v) ==> v.result.Some? && |v.result.value| > 0
  {
    v.result.None? || v.result == Some("")
  }

  /** The answer sent for attempt `k`: the cleaned recognition, trimmed once more. */
  function SentCaptcha(raw: string): (c: string)
    ensures NoSpace(c) && IsSubsequence(c, raw)
  {
    Trim(CaptchaAnswer(raw))
  }

  /** How the `try` block of an attempt settles: with the answer sent and the response page, or with an exception. */
  datatype Trial = Answered(captcha: string, html: string) | Thrown(message: string)

  /**
   * The `try` block of attempt `k` on plate `placa` up to the response:
   * recognition, cleaning, then the lookup request.
   */
  function Try(placa: string, k: nat, env: Env): (t: Trial)
    ensures t.Answered? ==> NoSpace(t.captcha) && env.fetch(k, GetInfoUrl(placa, t.captcha)) == Ok(t.html)
    ensures t.Thrown? ==>
      || env.recognise(k) == Exn(t.message)
      || (env.recognise(k).Ok? && env.fetch(k, GetInfoUrl(placa, SentCaptcha(env.recognise(k).value))) == Exn(t.message))
  {
    match env.recognise(k)
    case Exn(m) => Thrown(m)
    case Ok(raw) =>
      var captcha := SentCaptcha(raw);
      match env.fetch(k, GetInfoUrl(placa, captcha))
      case Exn(m) => Thrown(m)
      case Ok(html) => Answered(captcha, html)
  }

  /**
   * An answered attempt sent the cleaned, trimmed recognition under the
   * plate verbatim and the answer upper-cased, and got `html` back; a
   * thrown one carries the message of the recognition failure or, failing
   * that, of the request failure.
   */
  lemma TryOutcome(placa: string, k: nat, env: Env)
    ensures Try(placa, k, env).Answered? <==> env.recognise(k).Ok? && env.fetch(k, GetInfoUrl(placa, SentCaptcha(env.recognise(k).value))).Ok?
    ensures Try(placa, k, env).Answered? ==>
      var c := Try(placa, k, env).captcha;
      && c == Trim(CaptchaAnswer(env.recognise(k).value))
      && env.fetch(k, InfoPrefix + placa + CaptchaParam + ToUpper(c)) == Ok(Try(placa, k, env).html)
    ensures env.recognise(k).Exn? ==> Try(placa, k, env) == Thrown(env.recognise(k).message)
    ensures env.recognise(k).Ok? && env.fetch(k, GetInfoUrl(placa, SentCaptcha(env.recognise(k).value))).Exn? ==>
      Try(placa, k, env) == Thrown(env.fetch(k, GetInfoUrl(placa, SentCaptcha(env.recognise(k).value))).message)
  {
  }

  /** Whether attempt `k` on record `v` throws before storing anything but the error. */
  predicate Throws(v: PlacaValue, k: nat, env: Env)
  {
    Try(v.placa, k, env).Thrown?
  }

  /** The record after the `try`/`catch` of attempt number `k`. */
  function Attempt(v: PlacaValue, k: nat, env: Env): (a: PlacaValue)
    ensures a.placa == v.placa
    ensures Throws(v, k, env) ==>
      a.error.Some? && a.result == v.result && a.html == v.html && a.lastCaptcha == v.lastCaptcha
    ensures !Throws(v, k, env) ==>
      a.error == v.error && a.result.Some? && a.html.Some? && a.lastCaptcha.Some?
  {
    match Try(v.placa, k, env)
    case Thrown(m) => v.(error := Some(m))
    case Answered(captcha, html) =>
      v.(lastCaptcha := Some(captcha), html := Some(html),
         result := Some(env.serialize(Parse(env.load(html), env.clock(k)))))
  }

  /**
   * A thrown attempt sets `error` to the exception's message and touches
   * nothing else, so a pending record stays pending. An answered attempt
   * stores the answer it sent (before upper-casing), the response and the
   * serialised parse, whatever the parse says, and leaves the plate and an
   * error from an earlier run as they were.
   */
  lemma AttemptEffect(v: PlacaValue, k: nat, env: Env)
    ensures Attempt(v, k, env).placa == v.placa
    ensures Try(v.placa, k, env).Thrown? ==>
      Attempt(v, k, env) == v.(error := Some(Try(v.placa, k, env).message))
      && Attempt(v, k, env).result == v.result && IsPending(Attempt(v, k, env)) == IsPending(v)
    ensures Try(v.placa, k, env).Answered? ==>
      var t := Try(v.placa, k, env);
      && Attempt(v, k, env).error == v.error
      && Attempt(v, k, env).lastCaptcha == Some(t.captcha)
      && Attempt(v, k, env).html == Some(t.html)
      && Attempt(v, k, env).result == Some(env.serialize(Parse(env.load(t.html), env.clock(k))))
  {
  }

  /** With JSON output (never empty) an attempt leaves a pending record pending exactly when it throws. */
  lemma AttemptKeeps(v: PlacaValue, k: nat, env: Env)
    requires IsPending(v)
    ensures SerializesNonEmpty(env) ==> (IsPending(Attempt(v, k, env)) <==> Throws(v, k, env))
  {
    AttemptEffect(v, k, env);
  }

  // Which records the run visits.

  /** The indices `placas.filter((placa) => !placa.result)` keeps, in list order. */
  function PendingIndices(vals: seq<PlacaValue>): (idx: seq<nat>)
    ensures forall m :: 0 <= m < |idx| ==> idx[m] < |vals| && IsPending(vals[idx[m]])
    ensures forall m, m' :: 0 <= m < m' < |idx| ==> idx[m] < idx[m']
  {
    if vals == [] then []
    else
      var n := |vals| - 1;
      PendingIndices(vals[..n]) + (if IsPending(vals[n]) then [n] else [])
  }

  /** The attempt number record `i` gets: how many pending records precede it. */
  function Rank(vals: seq<PlacaValue>, i: nat): nat
    requires i <= |vals|
  {
    |PendingIndices(vals[..i])|
  }

  /** Visiting in order: pending record `i` is number `Rank(vals, i)` in the filtered list, and every entry of that list is such a record. */
  lemma {:induction false} RankIndex(vals: seq<PlacaValue>, i: nat)
    requires i < |vals| && IsPending(vals[i])
    ensures Rank(vals, i) < |PendingIndices(vals)|
    ensures PendingIndices(vals)[Rank(vals, i)] == i
    decreases |vals|
  {
    var n := |vals| - 1;
    assert vals[..n][..i] == vals[..i];
    if i < n {
      RankIndex(vals[..n], i);
    } else {
      assert vals[..n] == vals[..i];
    }
  }

  /** The record at position `m` of the filtered list has rank `m`. */
  lemma {:induction false} IndexRank(vals: seq<PlacaValue>, m: nat)
    requires m < |PendingIndices(vals)|
    ensures Rank(vals, PendingIndices(vals)[m]) == m
    decreases |vals|
  {
    var n := |vals| - 1;
    var idx := PendingIndices(vals);
    if m < |PendingIndices(vals[..n])| {
      IndexRank(vals[..n], m);
      assert vals[..n][..idx[m]] == vals[..idx[m]];
    } else {
      assert idx[m] == n;
      assert vals[..n] == vals[..idx[m]];
    }
  }

  /** Earlier pending records get earlier attempts. */
  lemma RankOrder(vals: seq<PlacaValue>, i: nat, j: nat)
    requires i < j < |vals| && IsPending(vals[i]) && IsPending(vals[j])
    ensures Rank(vals, i) < Rank(vals, j)
  {
    RankIndex(vals, i);
    RankIndex(vals, j);
    var idx := PendingIndices(vals);
    assert idx[Rank(vals, i)] == i && idx[Rank(vals, j)] == j;
  }

  /** One lookup attempt: the record before it and its attempt number, to the record after it. */
  type Step = (PlacaValue, nat) -> PlacaValue

  /** The attempt `main` makes with the collaborators of `env`. */
  function AttemptStep(env: Env): Step
  {
    (v: PlacaValue, k: nat) => Attempt(v, k, env)
  }

  /** The store after the first `m` attempts of a run that began with `vals`: attempt `m - 1` updates the `m`-th pending record. */
  function AfterAttempts(vals: seq<PlacaValue>, attempt: Step, m: nat): (r: seq<PlacaValue>)
    requires m <= |PendingIndices(vals)|
    ensures |r| == |vals|
  {
    if m == 0 then vals
    else
      var i := PendingIndices(vals)[m - 1];
      AfterAttempts(vals, attempt, m - 1)[i := attempt(vals[i], m - 1)]
  }

  /**
   * After `m` attempts, a record reads its own attempt when it was pending
   * and among the first `m` pending records, and what it read before
   * otherwise.
   */
  lemma {:induction false} AfterAttemptsAt(vals: seq<PlacaValue>, attempt: Step, m: nat, i: nat)
    requires m <= |PendingIndices(vals)| && i < |vals|
    ensures AfterAttempts(vals, attempt, m)[i]
      == if IsPending(vals[i]) && Rank(vals, i) < m then attempt(vals[i], Rank(vals, i)) else vals[i]
  {
    if m > 0 {
      var idx := PendingIndices(vals);
      var prev := AfterAttempts(vals, attempt, m - 1);
      assert AfterAttempts(vals, attempt, m) == prev[idx[m - 1] := attempt(vals[idx[m - 1]], m - 1)];
      if i == idx[m - 1] {
        IndexRank(vals, m - 1);
        assert IsPending(vals[i]) && Rank(vals, i) == m - 1;
      } else {
        assert AfterAttempts(vals, attempt, m)[i] == prev[i];
        AfterAttemptsAt(vals, attempt, m - 1, i);
        if IsPending(vals[i]) {
          RankIndex(vals, i);
          assert Rank(vals, i) != m - 1;
        }
      }
    }
  }

  /** The store after a whole run. */
  function RunResult(vals: seq<PlacaValue>, attempt: Step): seq<PlacaValue>
  {
    AfterAttempts(vals, attempt, |PendingIndices(vals)|)
  }

  /** The written log after the first `m` attempts of a run, when `log` had been written before it: one snapshot per attempt. */
  function WriteLog(log: seq<seq<PlacaValue>>, vals: seq<PlacaValue>, attempt: Step, m: nat): (w: seq<seq<PlacaValue>>)
    requires m <= |PendingIndices(vals)|
    ensures |w| == |log| + m
  {
    if m == 0 then log else WriteLog(log, vals, attempt, m - 1) + [AfterAttempts(vals, attempt, m)]
  }

  /** The writes of a run only append to the log written before it. */
  lemma {:induction false} WriteLogPrefix(log: seq<seq<PlacaValue>>, vals: seq<PlacaValue>, attempt: Step, n: nat)
    requires n <= |PendingIndices(vals)|
    ensures WriteLog(log, vals, attempt, n)[..|log|] == log
  {
    if n > 0 {
      WriteLogPrefix(log, vals, attempt, n - 1);
      var prev := WriteLog(log, vals, attempt, n - 1);
      assert WriteLog(log, vals, attempt, n)[..|log|] == prev[..|log|];
    }
  }

  /**
   * Write number `m` of a run holds the store after `m + 1` attempts: the
   * store before that attempt with the record visited `m`-th replaced.
   */
  lemma {:induction false} WriteLogAt(log: seq<seq<PlacaValue>>, vals: seq<PlacaValue>, attempt: Step, n: nat, m: nat)
    requires m < n <= |PendingIndices(vals)|
    ensures WriteLog(log, vals, attempt, n)[|log| + m] ==
      var i := PendingIndices(vals)[m];
      AfterAttempts(vals, attempt, m)[i := attempt(vals[i], m)]
  {
    if m < n - 1 {
      WriteLogAt(log, vals, attempt, n - 1, m);
      var prev := WriteLog(log, vals, attempt, n - 1);
      assert WriteLog(log, vals, attempt, n)[|log| + m] == prev[|log| + m];
    }
  }

  /**
   * The rest of a run from `vals`, as the loop performs it: from store `cur`
   * and log `w` after `k` attempts, attempt `k` updates the `k`-th pending
   * record as it currently reads, and the store is written after each attempt.
   */
  function RunFrom(cur: seq<PlacaValue>, w: seq<seq<PlacaValue>>, vals: seq<PlacaValue>, attempt: Step, k: nat): (seq<PlacaValue>, seq<seq<PlacaValue>>)
    requires k <= |PendingIndices(vals)| && |cur| == |vals|
    decreases |PendingIndices(vals)| - k
  {
    if k == |PendingIndices(vals)| then (cur, w)
    else
      var i := PendingIndices(vals)[k];
      var next := cur[i := attempt(cur[i], k)];
      RunFrom(next, w + [next], vals, attempt, k + 1)
  }

  /**
   * Performing the rest of a run after `k` attempts ends in the store of the
   * whole run and the log of all its writes: each record is still unvisited
   * when its turn comes.
   */
  lemma {:induction false} RunFromAfter(vals: seq<PlacaValue>, log: seq<seq<PlacaValue>>, attempt: Step, k: nat)
    requires k <= |PendingIndices(vals)|
    ensures RunFrom(AfterAttempts(vals, attempt, k), WriteLog(log, vals, attempt, k), vals, attempt, k)
      == (RunResult(vals, attempt), WriteLog(log, vals, attempt, |PendingIndices(vals)|))
    decreases |PendingIndices(vals)| - k
  {
    if k < |PendingIndices(vals)| {
      var i := PendingIndices(vals)[k];
      AfterAttemptsAt(vals, attempt, k, i);
      IndexRank(vals, k);
      RunFromAfter(vals, log, attempt, k + 1);
    }
  }

  /**
   * A run: a record with a result is left alone; a pending record gets
   * exactly its own attempt, numbered by its place among the pending ones.
   */
  lemma RunEffect(vals: seq<PlacaValue>, env: Env, i: nat)
    requires i < |vals|
    ensures !IsPending(vals[i]) ==> RunResult(vals, AttemptStep(env))[i] == vals[i]
    ensures IsPending(vals[i]) ==> RunResult(vals, AttemptStep(env))[i] == Attempt(vals[i], Rank(vals, i), env)
    ensures RunResult(vals, AttemptStep(env))[i].placa == vals[i].placa
  {
    AfterAttemptsAt(vals, AttemptStep(env), |PendingIndices(vals)|, i);
    if IsPending(vals[i]) {
      RankIndex(vals, i);
      AttemptEffect(vals[i], Rank(vals, i), env);
    }
  }

  /** A run never makes a finished record pending; with JSON output it finishes exactly the attempts that do not throw. */
  lemma RunPending(vals: seq<PlacaValue>, env: Env, i: nat)
    requires i < |vals|
    ensures IsPending(RunResult(vals, AttemptStep(env))[i]) ==> IsPending(vals[i])
    ensures SerializesNonEmpty(env) && IsPending(vals[i]) ==>
      (IsPending(RunResult(vals, AttemptStep(env))[i]) <==> Throws(vals[i], Rank(vals, i), env))
  {
    RunEffect(vals, env, i);
    if IsPending(vals[i]) {
      AttemptKeeps(vals[i], Rank(vals, i), env);
    }
  }

  // The objects the run updates.

  /** One record object of `db.data.placas`. */
  class Placa {
    var placa: string
    var result: Option<string>
    var error: Option<string>
    var html: Option<string>
    var lastCaptcha: Option<string>

    function Value(): PlacaValue
      reads this
    {
      PlacaValue(placa, result, error, html, lastCaptcha)
    }

    constructor (v: PlacaValue)
      ensures Value() == v
    {
      placa, result, error, html, lastCaptcha := v.placa, v.result, v.error, v.html, v.lastCaptcha;
    }

    /** The body of the `for` loop: one `try`/`catch` lookup of this plate, as attempt `k`. */
    method Consult(k: nat, env: Env)
      modifies this
      ensures Value() == Attempt(old(Value()), k, env)
    {
      var v := RunAttempt(Value(), k, env);
      placa, result, error, html, lastCaptcha := v.placa, v.result, v.error, v.html, v.lastCaptcha;
    }
  }

  /**
   * The statements of one attempt on the fields `v` of a record: recognise,
   * clean, request, parse; an exception from recognition or from the request
   * is caught into `error`.
   */
  method RunAttempt(v: PlacaValue, k: nat, env: Env) returns (w: PlacaValue)
    ensures w == Attempt(v, k, env)
  {
    var recognised := env.recognise(k);
    if recognised.Exn? {
      return v.(error := Some(recognised.message));
    }
    var captcha := SentCaptcha(recognised.value);
    var response := env.fetch(k, GetInfoUrl(v.placa, captcha));
    if response.Exn? {
      return v.(error := Some(response.message));
    }
    w := v.(lastCaptcha := Some(captcha), html := Some(response.value));
    var info := GetDataFromHtml(env.load(response.value), env.clock(k));
    w := w.(result := Some(env.serialize(info)));
  }

  /** The store: its list of record objects and the snapshots written so far. */
  class Store {
    const placas: seq<Placa>
    ghost var written: seq<seq<PlacaValue>>

    /** The list holds each record object once. */
    ghost predicate Valid()
    {
      forall i, j :: 0 <= i < j < |placas| ==> placas[i] != placas[j]
    }

    /** The stored fields of every record, in list order. */
    function Values(): (vs: seq<PlacaValue>)
      reads placas
      ensures |vs| == |placas|
      ensures forall i :: 0 <= i < |placas| ==> vs[i] == placas[i].Value()
    {
      seq(|placas|, i reads placas requires 0 <= i < |placas| => placas[i].Value())
    }

    constructor (vals: seq<PlacaValue>)
      ensures Valid() && Values() == vals && written == []
      ensures forall i :: 0 <= i < |placas| ==> fresh(placas[i])
    {
      var ps: seq<Placa> := [];
      var i := 0;
      while i < |vals|
        invariant 0 <= i <= |vals| && |ps| == i
        invariant forall j :: 0 <= j < i ==> fresh(ps[j]) && ps[j].Value() == vals[j]
        invariant forall j, j' :: 0 <= j < j' < i ==> ps[j] != ps[j']
      {
        var p := new Placa(vals[i]);
        ps := ps + [p];
        i := i + 1;
      }
      placas := ps;
      written := [];
    }

    /** `db.write()`: persists a snapshot of every record. */
    method Write()
      modifies this`written
      ensures written == old(written) + [Values()]
    {
      written := written + [Values()];
    }

    /** `placas.filter((placa) => !placa.result)`: the pending record objects, in list order. */
    method PendingRecords() returns (todo: seq<Placa>)
      ensures |todo| == |PendingIndices(Values())|
      ensures forall m :: 0 <= m < |todo| ==> todo[m] == placas[PendingIndices(Values())[m]]
    {
      ghost var vals := Values();
      todo := [];
      var i := 0;
      while i < |placas|
        invariant 0 <= i <= |placas|
        invariant |todo| == |PendingIndices(vals[..i])|
        invariant forall m :: 0 <= m < |todo| ==> todo[m] == placas[PendingIndices(vals[..i])[m]]
      {
        assert vals[..i + 1][..i] == vals[..i];
        if !placas[i].result.Some? || placas[i].result == Some("") {
          todo := todo + [placas[i]];
        }
        i := i + 1;
      }
      assert vals[..i] == vals;
    }

    /** `main`: the filter, then one attempt and one write per pending record. */
    method UpdatePending(env: Env)
      requires Valid()
      modifies this`written, placas
      ensures Values() == RunResult(old(Values()), AttemptStep(env))
      ensures written == WriteLog(old(written), old(Values()), AttemptStep(env), |PendingIndices(old(Values()))|)
    {
      ghost var vals, log := Values(), written;
      var todo := PendingRecords();
      VisitAll(todo, env, vals, log);
      RunFromAfter(vals, log, AttemptStep(env), 0);
    }

    /** The `for` loop over `todo`, the pending records of `vals`, starting from log `log`. */
    method VisitAll(todo: seq<Placa>, env: Env, ghost vals: seq<PlacaValue>, ghost log: seq<seq<PlacaValue>>)
      requires Valid() && Values() == vals && written == log
      requires |todo| == |PendingIndices(vals)|
      requires forall m :: 0 <= m < |todo| ==> todo[m] == placas[PendingIndices(vals)[m]]
      modifies this`written, placas
      ensures (Values(), written) == RunFrom(vals, log, vals, AttemptStep(env), 0)
    {
      var k := 0;
      while k < |todo|
        invariant 0 <= k <= |todo|
        invariant RunFrom(Values(), written, vals, AttemptStep(env), k) == RunFrom(vals, log, vals, AttemptStep(env), 0)
      {
        Visit(todo[k], k, env, vals, RunFrom(vals, log, vals, AttemptStep(env), 0));
        k := k + 1;
      }
    }

    /**
     * One turn of the `for` loop: the lookup of the `k`-th pending record `p`,
     * then `db.write()`; the rest of the run still ends in `goal`.
     */
    method Visit(p: Placa, k: nat, env: Env, ghost vals: seq<PlacaValue>, ghost goal: (seq<PlacaValue>, seq<seq<PlacaValue>>))
      requires Valid()
      requires k < |PendingIndices(vals)| && |vals| == |placas| && p == placas[PendingIndices(vals)[k]]
      requires RunFrom(Values(), written, vals, AttemptStep(env), k) == goal
      modifies this`written, p
      ensures var i := PendingIndices(vals)[k];
        Values() == old(Values())[i := Attempt(old(Values())[i], k, env)]
      ensures written == old(written) + [Values()]
      ensures RunFrom(Values(), written, vals, AttemptStep(env), k + 1) == goal
    {
      ghost var i := PendingIndices(vals)[k];
      ghost var before := Values();
      p.Consult(k, env);
      assert Values() == before[i := Attempt(before[i], k, env)] by {
        forall j | 0 <= j < |placas| && j != i ensures Values()[j] == before[j] {
          assert placas[j] != placas[i];
        }
      }
      Write();
    }
  }
}
