/**
 * The guest-side helpers of golem-rust around the Golem host interface: the text form of a
 * promise id, the conversion of retry policies between the host's nanosecond record and
 * `Duration`s, and the guards that set a host setting for a while and put the original back.
 *
 * The host is a `Host` object whose fields are the settings the host keeps for the running
 * worker and the atomic-region markers written to its oplog; each host call is a method that
 * changes them. The closure a `with_*` function or `atomically` runs is a sequence of host calls.
 */
module Host {
  import opened Wrappers
  import opened Ascii

  /** 2^64: `u64` values are below it. */
  const U64Limit: nat := 0x1_0000_0000_0000_0000
  /** 2^32: `u32` values are below it. */
  const U32Limit: nat := 0x1_0000_0000
  const NanosPerSec: nat := 1_000_000_000

  // ---------------------------------------------------------------------------------------
  // Decimal text of an oplog index (`u64`'s `Display` and `str::parse::<u64>`)

  predicate AllDigits(s: string)
  {
    forall i :: 0 <= i < |s| ==> IsDigit(s[i])
  }

  function DigitChar(d: nat): (c: char)
    requires d < 10
    ensures IsDigit(c) && c as int - '0' as int == d
  {
    ('0' as int + d) as char
  }

  /** The value of a string of decimal digits, most significant first. */
  function DigitsValue(s: string): nat
    requires AllDigits(s)
  {
    if s == [] then 0 else DigitsValue(s[..|s| - 1]) * 10 + (s[|s| - 1] as int - '0' as int)
  }

  /**
   * `str::parse::<u64>`: one optional leading `+` (not on its own), then at least one ASCII
   * digit and nothing else, and a value that fits in 64 bits.
   */
  function ParseU64(s: string): (r: Option<nat>)
    ensures r.Some? ==> r.value < U64Limit
    ensures s == [] ==> r.None?
  {
    if s == [] then None
    else
      var digits := if s[0] == '+' && |s| > 1 then s[1..] else s;
      if AllDigits(digits) && DigitsValue(digits) < U64Limit then Some(DigitsValue(digits)) else None
  }

  /** The decimal text of `n`, without leading zeros. */
  function ShowNat(n: nat): (r: string)
    ensures r != [] && AllDigits(r)
    ensures n > 0 ==> r[0] != '0'
  {
    if n < 10 then [DigitChar(n)] else ShowNat(n / 10) + [DigitChar(n % 10)]
  }

  lemma {:induction false} ShowNatValue(n: nat)
    ensures DigitsValue(ShowNat(n)) == n
  {
    if n >= 10 {
      ShowNatValue(n / 10);
      var s := ShowNat(n);
      assert s[..|s| - 1] == ShowNat(n / 10);
    }
  }

  /** The text an oplog index is displayed as parses back to it. */
  lemma ParseShowNat(n: nat)
    requires n < U64Limit
    ensures ParseU64(ShowNat(n)) == Some(n)
  {
    ShowNatValue(n);
  }

  /** Parsing accepts a sign and leading zeros, so several texts denote one index. */
  lemma ParseNotInjective()
    ensures ParseU64("+7") == Some(7) && ParseU64("007") == Some(7) && ParseU64("7") == Some(7)
    ensures ParseU64("+") == None && ParseU64("-7") == None && ParseU64("") == None
  {
    assert "+7"[1..] == "7";
    assert "7"[..0] == [];
    assert "007"[..2] == "00" && "00"[..1] == "0" && "0"[..0] == [];
    assert DigitsValue("7") == 7;
    assert DigitsValue("007") == 7;
  }

  // ---------------------------------------------------------------------------------------
  // `str::split` on one character

  /** `s.split(sep).collect()`: the pieces between the separators, at least one of them. */
  function Split(sep: char, s: string): (r: seq<string>)
    ensures |r| == Count(sep, s) + 1
  {
    if s == [] then [[]]
    else
      var p := Split(sep, s[..|s| - 1]);
      if s[|s| - 1] == sep then p + [[]] else p[..|p| - 1] + [p[|p| - 1] + [s[|s| - 1]]]
  }

  /** The pieces, joined back with the separator, give the original text. */
  lemma {:induction false} SplitJoin(sep: char, s: string)
    ensures Join([sep], Split(sep, s)) == s
  {
    if s != [] {
      var init, c := s[..|s| - 1], s[|s| - 1];
      SplitJoin(sep, init);
      var p := Split(sep, init);
      assert init + [c] == s;
      if c == sep {
        var q := p + [[]];
        assert Split(sep, s) == q;
        assert q[..|q| - 1] == p;
        assert Join([sep], q) == Join([sep], p) + [sep] + [];
      } else {
        var q := p[..|p| - 1] + [p[|p| - 1] + [c]];
        assert Split(sep, s) == q;
        if |p| == 1 {
          assert q == [init + [c]];
        } else {
          assert q[..|q| - 1] == p[..|p| - 1];
          assert Join([sep], q) == Join([sep], p[..|p| - 1]) + [sep] + (p[|p| - 1] + [c]);
          assert Join([sep], p) == Join([sep], p[..|p| - 1]) + [sep] + p[|p| - 1];
        }
      }
    }
  }

  /** No piece holds the separator. */
  lemma {:induction false} SplitPieces(sep: char, s: string)
    ensures forall i :: 0 <= i < |Split(sep, s)| ==> Count(sep, Split(sep, s)[i]) == 0
  {
    if s != [] {
      var init, c := s[..|s| - 1], s[|s| - 1];
      SplitPieces(sep, init);
      var p := Split(sep, init);
      if c != sep {
        var last := p[|p| - 1];
        assert (last + [c])[..|last|] == last;
        assert Count(sep, last + [c]) == 0;
        var q := p[..|p| - 1] + [last + [c]];
        assert Split(sep, s) == q;
        forall i | 0 <= i < |q|
          ensures Count(sep, q[i]) == 0
        {
          if i < |p| - 1 {
            assert q[i] == p[i];
          }
        }
      }
    }
  }

  /** A text without the separator is one piece. */
  lemma {:induction false} SplitNone(sep: char, s: string)
    requires Count(sep, s) == 0
    ensures Split(sep, s) == [s]
  {
    if s != [] {
      assert Count(sep, s[..|s| - 1]) == 0;
      SplitNone(sep, s[..|s| - 1]);
      assert s[..|s| - 1] + [s[|s| - 1]] == s;
    }
  }

  /** `a`, the separator, then `b`, neither holding the separator, splits into `a` and `b`. */
  lemma {:induction false} SplitTwo(sep: char, a: string, b: string)
    requires Count(sep, a) == 0 && Count(sep, b) == 0
    ensures Split(sep, a + [sep] + b) == [a, b]
  {
    if b == [] {
      SplitNone(sep, a);
      assert a + [sep] + b == a + [sep];
      assert (a + [sep])[..|a|] == a;
    } else {
      var b', c := b[..|b| - 1], b[|b| - 1];
      assert Count(sep, b) == Count(sep, b') + (if c == sep then 1 else 0);
      SplitTwo(sep, a, b');
      assert a + [sep] + b == (a + [sep] + b') + [c];
      SplitSnoc(sep, a + [sep] + b', c);
      assert [a, b'][..1] == [a];
      assert b' + [c] == b;
    }
  }

  /** A character other than the separator extends the last piece. */
  lemma SplitSnoc(sep: char, s: string, c: char)
    requires c != sep
    ensures var p := Split(sep, s);
      Split(sep, s + [c]) == p[..|p| - 1] + [p[|p| - 1] + [c]]
  {
    assert (s + [c])[..|s + [c]| - 1] == s;
  }

  // ---------------------------------------------------------------------------------------
  // Promise ids (golem-rust/src/lib.rs:44-72)

  /**
   * A promise: the worker that created it and the oplog index it was created at (`u64`). The
   * worker id's own text form belongs to the host bindings, which are not part of this model;
   * its parser and printer are parameters.
   */
  datatype PromiseId<W> = PromiseId(workerId: W, oplogIdx: nat)

  /** `Display`: the worker id, a `/`, and the oplog index in decimal. */
  function ShowPromiseId<W>(showWorker: W -> string, p: PromiseId<W>): string
  {
    showWorker(p.workerId) + "/" + ShowNat(p.oplogIdx)
  }

  /**
   * `FromStr`: the text must split on `/` into exactly two pieces; the first must parse as a
   * worker id and then the second as a `u64`. Each failure has its own message.
   */
  function ParsePromiseId<W>(parseWorker: string -> Option<W>, s: string): (r: Result<PromiseId<W>, string>)
    ensures r.Ok? ==> Count('/', s) == 1 && r.value.oplogIdx < U64Limit
    ensures Count('/', s) != 1 ==> r == Err("invalid promise id: " + s + " - expected format: <worker_id>/<oplog_idx>")
  {
    var parts := Split('/', s);
    if |parts| == 2 then
      match parseWorker(parts[0])
      case None => Err("invalid worker id: " + s + " - expected format: <component_id>/<worker_name>")
      case Some(w) =>
        match ParseU64(parts[1])
        case None => Err("invalid oplog index: " + s + " - expected integer")
        case Some(idx) => Ok(PromiseId(w, idx))
    else
      Err("invalid promise id: " + s + " - expected format: <worker_id>/<oplog_idx>")
  }

  /**
   * A promise id reads back from its text when its worker id's text has no `/` and reads back
   * itself, and its index fits in a `u64`.
   */
  lemma PromiseIdRoundTrip<W>(parseWorker: string -> Option<W>, showWorker: W -> string, p: PromiseId<W>)
    requires Count('/', showWorker(p.workerId)) == 0
    requires parseWorker(showWorker(p.workerId)) == Some(p.workerId)
    requires p.oplogIdx < U64Limit
    ensures ParsePromiseId(parseWorker, ShowPromiseId(showWorker, p)) == Ok(p)
  {
    var w, n := showWorker(p.workerId), ShowNat(p.oplogIdx);
    assert Count('/', n) == 0 by {
      forall i | 0 <= i < |n| ensures n[i] != '/' {
        assert IsDigit(n[i]);
      }
      CountZero('/', n);
    }
    SplitTwo('/', w, n);
    assert ShowPromiseId(showWorker, p) == w + ['/'] + n;
    ParseShowNat(p.oplogIdx);
  }

  /** A worker id whose text holds a `/` gives a promise id text that does not parse. */
  lemma SlashInWorkerIdRejected<W>(parseWorker: string -> Option<W>, showWorker: W -> string, p: PromiseId<W>)
    requires Count('/', showWorker(p.workerId)) > 0
    ensures ParsePromiseId(parseWorker, ShowPromiseId(showWorker, p)).Err?
  {
    var w, n := showWorker(p.workerId), ShowNat(p.oplogIdx);
    CountAppend('/', w + "/", n);
    CountAppend('/', w, "/");
    assert ShowPromiseId(showWorker, p) == w + "/" + n;
  }

  /**
   * Text with exactly one `/`: the parse succeeds exactly when the piece before it is a worker id
   * and the piece after it an index, and a bad worker id is reported before a bad index.
   */
  lemma ParseOneSlash<W>(parseWorker: string -> Option<W>, a: string, b: string)
    requires Count('/', a) == 0 && Count('/', b) == 0
    ensures var s := a + "/" + b;
      && (parseWorker(a).None? ==>
            ParsePromiseId(parseWorker, s) == Err("invalid worker id: " + s + " - expected format: <component_id>/<worker_name>"))
      && (parseWorker(a).Some? && ParseU64(b).None? ==>
            ParsePromiseId(parseWorker, s) == Err("invalid oplog index: " + s + " - expected integer"))
      && (parseWorker(a).Some? && ParseU64(b).Some? ==>
            ParsePromiseId(parseWorker, s) == Ok(PromiseId(parseWorker(a).value, ParseU64(b).value)))
  {
    SplitTwo('/', a, b);
    assert a + "/" + b == a + ['/'] + b;
  }

  /** What a successful parse read: the two pieces around the one `/`, each accepted by its parser. */
  lemma ParsedPromiseId<W>(parseWorker: string -> Option<W>, s: string) returns (a: string, b: string)
    requires ParsePromiseId(parseWorker, s).Ok?
    ensures s == a + "/" + b && Count('/', a) == 0 && Count('/', b) == 0
    ensures parseWorker(a) == Some(ParsePromiseId(parseWorker, s).value.workerId)
    ensures ParseU64(b) == Some(ParsePromiseId(parseWorker, s).value.oplogIdx)
  {
    var parts := Split('/', s);
    SplitJoin('/', s);
    SplitPieces('/', s);
    a, b := parts[0], parts[1];
    assert Join(['/'], parts) == a + ['/'] + b by {
      assert parts[..1] == [a];
    }
  }

  // ---------------------------------------------------------------------------------------
  // Retry policies (golem-rust/src/lib.rs:74-105)

  /** `std::time::Duration`: whole seconds (`u64`) and the nanoseconds past them. */
  datatype Duration = Duration(secs: nat, nanos: nat)
  {
    predicate Valid()
    {
      secs < U64Limit && nanos < NanosPerSec
    }
  }

  /** `Duration::as_nanos` (a `u128`, which cannot overflow for a valid duration). */
  function AsNanos(d: Duration): nat
  {
    d.secs * NanosPerSec + d.nanos
  }

  /** `Duration::from_nanos`. */
  function FromNanos(n: nat): (d: Duration)
    requires n < U64Limit
    ensures d.Valid() && AsNanos(d) == n
  {
    Duration(n / NanosPerSec, n % NanosPerSec)
  }

  /** `as u64` on a `u128`: the low 64 bits. */
  function TruncateU64(n: nat): (r: nat)
    ensures r < U64Limit && (n < U64Limit ==> r == n)
  {
    n % U64Limit
  }

  /** Floating-point fields are only copied; `real` stands in for `f64`. */
  type Float = real

  /** The host's retry policy record: delays in nanoseconds. */
  datatype HostRetryPolicy = HostRetryPolicy(maxAttempts: nat, minDelay: nat, maxDelay: nat,
                                             multiplier: Float, maxJitterFactor: Option<Float>)
  {
    predicate Valid()
    {
      maxAttempts < U32Limit && minDelay < U64Limit && maxDelay < U64Limit
    }
  }

  /** The guest's retry policy: delays as `Duration`s. */
  datatype RetryPolicy = RetryPolicy(maxAttempts: nat, minDelay: Duration, maxDelay: Duration,
                                     multiplier: Float, maxJitterFactor: Option<Float>)
  {
    predicate Valid()
    {
      maxAttempts < U32Limit && minDelay.Valid() && maxDelay.Valid()
    }
  }

  /** `From<host RetryPolicy> for RetryPolicy`. */
  function FromHostPolicy(h: HostRetryPolicy): (p: RetryPolicy)
    requires h.Valid()
    ensures p.Valid()
    ensures AsNanos(p.minDelay) == h.minDelay && AsNanos(p.maxDelay) == h.maxDelay
    ensures p.maxAttempts == h.maxAttempts && p.multiplier == h.multiplier && p.maxJitterFactor == h.maxJitterFactor
  {
    RetryPolicy(h.maxAttempts, FromNanos(h.minDelay), FromNanos(h.maxDelay), h.multiplier, h.maxJitterFactor)
  }

  /** `From<RetryPolicy> for host RetryPolicy`: delays are truncated to 64 bits of nanoseconds. */
  function ToHostPolicy(p: RetryPolicy): (h: HostRetryPolicy)
    requires p.Valid()
    ensures h.Valid()
    ensures h.minDelay == TruncateU64(AsNanos(p.minDelay)) && h.maxDelay == TruncateU64(AsNanos(p.maxDelay))
    ensures h.maxAttempts == p.maxAttempts && h.multiplier == p.multiplier && h.maxJitterFactor == p.maxJitterFactor
  {
    HostRetryPolicy(p.maxAttempts, TruncateU64(AsNanos(p.minDelay)), TruncateU64(AsNanos(p.maxDelay)),
                    p.multiplier, p.maxJitterFactor)
  }

  /** A valid duration is determined by its nanosecond count. */
  lemma FromAsNanos(d: Duration)
    requires d.Valid() && AsNanos(d) < U64Limit
    ensures FromNanos(AsNanos(d)) == d
  {
  }

  /** A host policy converted to the guest's form and back is unchanged. */
  lemma HostPolicyRoundTrip(h: HostRetryPolicy)
    requires h.Valid()
    ensures ToHostPolicy(FromHostPolicy(h)) == h
  {
  }

  /**
   * A guest policy converted to the host's form and back is unchanged exactly when both of its
   * delays are below 2^64 nanoseconds (about 584 years).
   */
  lemma PolicyRoundTrip(p: RetryPolicy)
    requires p.Valid()
    ensures FromHostPolicy(ToHostPolicy(p)) == p <==> AsNanos(p.minDelay) < U64Limit && AsNanos(p.maxDelay) < U64Limit
  {
    if AsNanos(p.minDelay) < U64Limit && AsNanos(p.maxDelay) < U64Limit {
      FromAsNanos(p.minDelay);
      FromAsNanos(p.maxDelay);
    } else if AsNanos(p.minDelay) >= U64Limit {
      assert AsNanos(FromHostPolicy(ToHostPolicy(p)).minDelay) < U64Limit;
    } else {
      assert AsNanos(FromHostPolicy(ToHostPolicy(p)).maxDelay) < U64Limit;
    }
  }

  // ---------------------------------------------------------------------------------------
  // Host state and host calls

  /** The oplog persistence levels of the host interface. */
  datatype PersistenceLevel = PersistNothing | PersistRemoteSideEffects | Smart

  /** The oplog entries the atomic-region calls write. */
  datatype Marker = BeginOperation | EndOperation(begin: nat)

  /** One call into the host. */
  datatype HostCall =
    | SetPersistenceLevel(level: PersistenceLevel)
    | SetIdempotenceMode(mode: bool)
    | SetRetryPolicy(policy: HostRetryPolicy)
    | MarkBegin
    | MarkEnd(begin: nat)

  /** What the host keeps for the running worker. */
  datatype HostState = HostState(level: PersistenceLevel, idempotent: bool, retry: HostRetryPolicy, oplog: seq<Marker>)

  /** The effect of one host call; `MarkBegin`'s oplog index is the position of its marker. */
  function Step(st: HostState, c: HostCall): HostState
  {
    match c
    case SetPersistenceLevel(l) => st.(level := l)
    case SetIdempotenceMode(m) => st.(idempotent := m)
    case SetRetryPolicy(p) => st.(retry := p)
    case MarkBegin => st.(oplog := st.oplog + [BeginOperation])
    case MarkEnd(b) => st.(oplog := st.oplog + [EndOperation(b)])
  }

  /** The effect of host calls made in order. */
  function Steps(st: HostState, calls: seq<HostCall>): HostState
  {
    if calls == [] then st else Step(Steps(st, calls[..|calls| - 1]), calls[|calls| - 1])
  }

  lemma {:induction false} StepsAppend(st: HostState, a: seq<HostCall>, b: seq<HostCall>)
    ensures Steps(st, a + b) == Steps(Steps(st, a), b)
  {
    if b == [] {
      assert a + b == a;
    } else {
      StepsAppend(st, a, b[..|b| - 1]);
      assert (a + b)[..|a + b| - 1] == a + b[..|b| - 1];
    }
  }

  /** Host calls only add to the oplog. */
  lemma {:induction false} StepsExtendOplog(st: HostState, calls: seq<HostCall>)
    ensures |Steps(st, calls).oplog| >= |st.oplog|
    ensures Steps(st, calls).oplog[..|st.oplog|] == st.oplog
  {
    if calls != [] {
      StepsExtendOplog(st, calls[..|calls| - 1]);
      var prev := Steps(st, calls[..|calls| - 1]).oplog;
      assert prev[..|st.oplog|] == st.oplog;
    }
  }

  /** Calls that do not set the persistence level neither read nor change it. */
  lemma {:induction false} LevelIndependent(st: HostState, l: PersistenceLevel, calls: seq<HostCall>)
    requires forall i :: 0 <= i < |calls| ==> !calls[i].SetPersistenceLevel?
    ensures Steps(st.(level := l), calls) == Steps(st, calls).(level := l)
  {
    if calls != [] {
      LevelIndependent(st, l, calls[..|calls| - 1]);
    }
  }

  /** Calls that do not set the idempotence mode neither read nor change it. */
  lemma {:induction false} IdempotenceIndependent(st: HostState, m: bool, calls: seq<HostCall>)
    requires forall i :: 0 <= i < |calls| ==> !calls[i].SetIdempotenceMode?
    ensures Steps(st.(idempotent := m), calls) == Steps(st, calls).(idempotent := m)
  {
    if calls != [] {
      IdempotenceIndependent(st, m, calls[..|calls| - 1]);
    }
  }

  /** Calls that do not set the retry policy neither read nor change it. */
  lemma {:induction false} RetryIndependent(st: HostState, p: HostRetryPolicy, calls: seq<HostCall>)
    requires forall i :: 0 <= i < |calls| ==> !calls[i].SetRetryPolicy?
    ensures Steps(st.(retry := p), calls) == Steps(st, calls).(retry := p)
  {
    if calls != [] {
      RetryIndependent(st, p, calls[..|calls| - 1]);
    }
  }

  /**
   * A `with_persistence_level` around calls that do not themselves set the level is invisible
   * afterwards: the host ends as if the calls had run alone.
   */
  lemma WithLevelTransparent(st: HostState, l: PersistenceLevel, calls: seq<HostCall>)
    requires forall i :: 0 <= i < |calls| ==> !calls[i].SetPersistenceLevel?
    ensures Steps(st.(level := l), calls).(level := st.level) == Steps(st, calls)
  {
    LevelIndependent(st, l, calls);
  }

  /** The same for `with_idempotence_mode`. */
  lemma WithIdempotenceTransparent(st: HostState, m: bool, calls: seq<HostCall>)
    requires forall i :: 0 <= i < |calls| ==> !calls[i].SetIdempotenceMode?
    ensures Steps(st.(idempotent := m), calls).(idempotent := st.idempotent) == Steps(st, calls)
  {
    IdempotenceIndependent(st, m, calls);
  }

  /** The same for `with_retry_policy`, whose restore goes through the guest form of the policy. */
  lemma WithRetryTransparent(st: HostState, p: RetryPolicy, calls: seq<HostCall>)
    requires st.retry.Valid() && p.Valid()
    requires forall i :: 0 <= i < |calls| ==> !calls[i].SetRetryPolicy?
    ensures Steps(st.(retry := ToHostPolicy(p)), calls).(retry := ToHostPolicy(FromHostPolicy(st.retry))) == Steps(st, calls)
  {
    RetryIndependent(st, ToHostPolicy(p), calls);
    HostPolicyRoundTrip(st.retry);
  }

  /**
   * `atomically` brackets its calls: a begin marker at the first new oplog position, the calls'
   * own markers, and last an end marker naming that position; the earlier oplog is kept.
   */
  lemma AtomicBrackets(st: HostState, calls: seq<HostCall>)
    ensures var after := Steps(st, [MarkBegin] + calls + [MarkEnd(|st.oplog|)]).oplog;
            |after| >= |st.oplog| + 2 && after[..|st.oplog|] == st.oplog
            && after[|st.oplog|] == BeginOperation && after[|after| - 1] == EndOperation(|st.oplog|)
  {
    var begun := Step(st, MarkBegin);
    assert Steps(st, [MarkBegin]) == begun;
    StepsAppend(st, [MarkBegin], calls);
    StepsExtendOplog(begun, calls);
    var mid := Steps(st, [MarkBegin] + calls);
    assert mid.oplog[..|begun.oplog|] == begun.oplog;
    assert mid.oplog[|st.oplog|] == begun.oplog[|st.oplog|];
    var all := [MarkBegin] + calls + [MarkEnd(|st.oplog|)];
    assert all[..|all| - 1] == [MarkBegin] + calls;
    assert mid.oplog[..|st.oplog|] == begun.oplog[..|st.oplog|];
  }

  /** A setting restored by a guard. */
  datatype PersistenceLevelGuard = PersistenceLevelGuard(originalLevel: PersistenceLevel)
  datatype IdempotenceModeGuard = IdempotenceModeGuard(original: bool)
  datatype RetryPolicyGuard = RetryPolicyGuard(original: RetryPolicy)
  datatype AtomicOperationGuard = AtomicOperationGuard(begin: nat)

  /** The host, as the guest sees it through its calls. */
  class Host {
    var level: PersistenceLevel
    var idempotent: bool
    var retry: HostRetryPolicy
    var oplog: seq<Marker>

    function State(): HostState
      reads this
    {
      HostState(level, idempotent, retry, oplog)
    }

    /** The host's record types hold `u32`/`u64` values. */
    predicate Valid()
      reads this
    {
      retry.Valid()
    }

    constructor(st: HostState)
      requires st.retry.Valid()
      ensures Valid() && State() == st
    {
      level, idempotent, retry, oplog := st.level, st.idempotent, st.retry, st.oplog;
    }

    method GetPersistenceLevel() returns (l: PersistenceLevel)
      ensures l == level
    {
      l := level;
    }

    method GetIdempotenceMode() returns (m: bool)
      ensures m == idempotent
    {
      m := idempotent;
    }

    method GetRetryPolicy() returns (p: HostRetryPolicy)
      ensures p == retry
    {
      p := retry;
    }

    /** Performs one host call. */
    method Call(c: HostCall)
      requires Valid() && (c.SetRetryPolicy? ==> c.policy.Valid())
      modifies this
      ensures Valid() && State() == Step(old(State()), c)
    {
      match c {
        case SetPersistenceLevel(l) => level := l;
        case SetIdempotenceMode(m) => idempotent := m;
        case SetRetryPolicy(p) => retry := p;
        case MarkBegin => oplog := oplog + [BeginOperation];
        case MarkEnd(b) => oplog := oplog + [EndOperation(b)];
      }
    }

    /** `mark_begin_operation`: writes a begin marker and returns its oplog index. */
    method MarkBeginOperation() returns (begin: nat)
      requires Valid()
      modifies this
      ensures Valid() && State() == Step(old(State()), MarkBegin) && begin == |old(oplog)|
    {
      begin := |oplog|;
      Call(MarkBegin);
    }

    /** Runs a closure's host calls in order. */
    method Run(calls: seq<HostCall>)
      requires Valid() && forall i :: 0 <= i < |calls| && calls[i].SetRetryPolicy? ==> calls[i].policy.Valid()
      modifies this
      ensures Valid() && State() == Steps(old(State()), calls)
    {
      for i := 0 to |calls|
        invariant Valid() && State() == Steps(old(State()), calls[..i])
      {
        Call(calls[i]);
        assert calls[..i + 1][..i] == calls[..i];
      }
      assert calls[..|calls|] == calls;
    }

    /** `use_persistence_level`: remembers the current level, then sets the new one. */
    method UsePersistenceLevel(l: PersistenceLevel) returns (g: PersistenceLevelGuard)
      requires Valid()
      modifies this
      ensures Valid() && g.originalLevel == old(level) && State() == old(State()).(level := l)
    {
      var original := GetPersistenceLevel();
      Call(SetPersistenceLevel(l));
      g := PersistenceLevelGuard(original);
    }

    /** Dropping a `PersistenceLevelGuard` sets the remembered level again. */
    method DropPersistenceLevelGuard(g: PersistenceLevelGuard)
      requires Valid()
      modifies this
      ensures Valid() && State() == old(State()).(level := g.originalLevel)
    {
      Call(SetPersistenceLevel(g.originalLevel));
    }

    /** `with_persistence_level`: the calls run under the new level, then the original is back. */
    method WithPersistenceLevel(l: PersistenceLevel, calls: seq<HostCall>)
      requires Valid() && forall i :: 0 <= i < |calls| && calls[i].SetRetryPolicy? ==> calls[i].policy.Valid()
      modifies this
      ensures Valid() && State() == Steps(old(State()).(level := l), calls).(level := old(level))
    {
      var g := UsePersistenceLevel(l);
      Run(calls);
      DropPersistenceLevelGuard(g);
    }

    /** `use_idempotence_mode`. */
    method UseIdempotenceMode(m: bool) returns (g: IdempotenceModeGuard)
      requires Valid()
      modifies this
      ensures Valid() && g.original == old(idempotent) && State() == old(State()).(idempotent := m)
    {
      var original := GetIdempotenceMode();
      Call(SetIdempotenceMode(m));
      g := IdempotenceModeGuard(original);
    }

    method DropIdempotenceModeGuard(g: IdempotenceModeGuard)
      requires Valid()
      modifies this
      ensures Valid() && State() == old(State()).(idempotent := g.original)
    {
      Call(SetIdempotenceMode(g.original));
    }

    /** `with_idempotence_mode`. */
    method WithIdempotenceMode(m: bool, calls: seq<HostCall>)
      requires Valid() && forall i :: 0 <= i < |calls| && calls[i].SetRetryPolicy? ==> calls[i].policy.Valid()
      modifies this
      ensures Valid() && State() == Steps(old(State()).(idempotent := m), calls).(idempotent := old(idempotent))
    {
      var g := UseIdempotenceMode(m);
      Run(calls);
      DropIdempotenceModeGuard(g);
    }

    /**
     * `use_retry_policy`: the current host policy is remembered in the guest's form, and the new
     * one is handed to the host in the host's form.
     */
    method UseRetryPolicy(p: RetryPolicy) returns (g: RetryPolicyGuard)
      requires Valid() && p.Valid()
      modifies this
      ensures Valid() && g.original == FromHostPolicy(old(retry)) && State() == old(State()).(retry := ToHostPolicy(p))
    {
      var current := GetRetryPolicy();
      var original := FromHostPolicy(current);
      Call(SetRetryPolicy(ToHostPolicy(p)));
      g := RetryPolicyGuard(original);
    }

    /** Dropping a `RetryPolicyGuard` hands the remembered policy back in the host's form. */
    method DropRetryPolicyGuard(g: RetryPolicyGuard)
      requires Valid() && g.original.Valid()
      modifies this
      ensures Valid() && State() == old(State()).(retry := ToHostPolicy(g.original))
    {
      Call(SetRetryPolicy(ToHostPolicy(g.original)));
    }

    /** `with_retry_policy`: the host's original policy is restored exactly. */
    method WithRetryPolicy(p: RetryPolicy, calls: seq<HostCall>)
      requires Valid() && p.Valid() && forall i :: 0 <= i < |calls| && calls[i].SetRetryPolicy? ==> calls[i].policy.Valid()
      modifies this
      ensures Valid() && State() == Steps(old(State()).(retry := ToHostPolicy(p)), calls).(retry := old(retry))
    {
      var g := UseRetryPolicy(p);
      Run(calls);
      HostPolicyRoundTrip(old(retry));
      DropRetryPolicyGuard(g);
    }

    /** `mark_atomic_operation`. */
    method MarkAtomicOperation() returns (g: AtomicOperationGuard)
      requires Valid()
      modifies this
      ensures Valid() && State() == Step(old(State()), MarkBegin) && g.begin == |old(oplog)|
    {
      var begin := MarkBeginOperation();
      g := AtomicOperationGuard(begin);
    }

    /** Dropping an `AtomicOperationGuard` ends the region its begin index names. */
    method DropAtomicOperationGuard(g: AtomicOperationGuard)
      requires Valid()
      modifies this
      ensures Valid() && State() == Step(old(State()), MarkEnd(g.begin))
    {
      Call(MarkEnd(g.begin));
    }

    /** `atomically`: the calls run between a begin marker and the end marker naming it. */
    method Atomically(calls: seq<HostCall>)
      requires Valid() && forall i :: 0 <= i < |calls| && calls[i].SetRetryPolicy? ==> calls[i].policy.Valid()
      modifies this
      ensures Valid() && State() == Steps(old(State()), [MarkBegin] + calls + [MarkEnd(|old(oplog)|)])
    {
      ghost var st := State();
      var g := MarkAtomicOperation();
      ghost var begun := State();
      Run(calls);
      ghost var mid := State();
      DropAtomicOperationGuard(g);
      assert Steps(st, [MarkBegin]) == begun;
      StepsAppend(st, [MarkBegin], calls);
      var all := [MarkBegin] + calls + [MarkEnd(g.begin)];
      assert all[..|all| - 1] == [MarkBegin] + calls;
    }
  }
}
