/**
 The continuous health tests of SP 800-90B section 4.4 as they run, a byte at a time over whatever
 draws come, against what they are to say about the whole stream; and the start-up test on top.
 */
module Health {
  import opened Bytes
  import opened Wrappers

  const REPETITION_CUTOFF: nat := 5
  const ADAPTIVE_WINDOW: nat := 512
  const ADAPTIVE_CUTOFF: nat := 13
  const MIN_SAMPLE: nat := 8
  const STARTUP_SAMPLES: nat := 1024

  datatype HealthError =
    | Repetition(value: byte, run: nat)
    | AdaptiveProportion(value: byte, count: nat)
    | Constant(value: byte)
    | TooShort(len: nat)

  // ---------------------------------------------------------------------------
  // What a stream should be
  // ---------------------------------------------------------------------------

  /** Five equal bytes from `i` on. */
  predicate Stuck(s: seq<byte>, i: nat)
    requires i + REPETITION_CUTOFF <= |s|
  {
    s[i] == s[i + 1] == s[i + 2] == s[i + 3] == s[i + 4]
  }

  ghost predicate NeverStuck(s: seq<byte>) {
    forall i: nat :: i + REPETITION_CUTOFF <= |s| ==> !Stuck(s, i)
  }

  /** How often `b` occurs. */
  function Copies(s: seq<byte>, b: byte): nat {
    if s == [] then 0 else Copies(s[..|s| - 1], b) + (if s[|s| - 1] == b then 1 else 0)
  }

  /** Window `k` of the stream, as much of it as there is. */
  function Window(s: seq<byte>, k: nat): (w: seq<byte>)
    requires ADAPTIVE_WINDOW * k < |s|
    ensures w != []
  {
    var start := ADAPTIVE_WINDOW * k;
    if start + ADAPTIVE_WINDOW <= |s| then s[start..start + ADAPTIVE_WINDOW] else s[start..]
  }

  predicate Dominated(w: seq<byte>)
    requires w != []
  {
    Copies(w, w[0]) >= ADAPTIVE_CUTOFF
  }

  ghost predicate NeverDominated(s: seq<byte>) {
    forall k: nat :: ADAPTIVE_WINDOW * k < |s| ==> !Dominated(Window(s, k))
  }

  /** No byte five times in a row, and no window with thirteen copies of its first byte. */
  ghost predicate Clean(s: seq<byte>) {
    NeverStuck(s) && NeverDominated(s)
  }

  // ---------------------------------------------------------------------------
  // One byte more
  // ---------------------------------------------------------------------------

  /** How many equal bytes the stream ends with. */
  function EndRun(s: seq<byte>): (n: nat)
    ensures n <= |s|
  {
    if s == [] then 0
    else if |s| == 1 || s[|s| - 1] != s[|s| - 2] then 1
    else EndRun(s[..|s| - 1]) + 1
  }

  lemma {:induction false} EndRunIs(s: seq<byte>, j: nat)
    requires j < |s|
    ensures j < EndRun(s) ==> s[|s| - 1 - j] == s[|s| - 1]
    ensures j == EndRun(s) ==> s[|s| - 1 - j] != s[|s| - 1]
  {
    if j > 0 && s[|s| - 1] == s[|s| - 2] {
      EndRunIs(s[..|s| - 1], j - 1);
    }
  }

  lemma {:induction false} EndRunAtLeast(s: seq<byte>)
    ensures |s| >= 5 && Stuck(s, |s| - 5) ==> EndRun(s) >= 5
    ensures EndRun(s) >= 5 ==> |s| >= 5 && Stuck(s, |s| - 5)
  {
    if |s| >= 5 {
      EndRunIs(s, 1);
      EndRunIs(s, 2);
      EndRunIs(s, 3);
      EndRunIs(s, 4);
    }
  }

  /** A stream that was never stuck is stuck now only at its end. */
  lemma {:induction false} StuckAtEnd(s: seq<byte>, b: byte)
    requires NeverStuck(s)
    ensures NeverStuck(s + [b]) <==> EndRun(s + [b]) < REPETITION_CUTOFF
  {
    var t := s + [b];
    EndRunAtLeast(t);
    if EndRun(t) < REPETITION_CUTOFF {
      forall i: nat | i + REPETITION_CUTOFF <= |t| ensures !Stuck(t, i) {
        if i + REPETITION_CUTOFF <= |s| {
          assert !Stuck(s, i);
        }
      }
    }
  }

  /** The window the stream ends in: empty when the last one is full. */
  function Open(s: seq<byte>): (w: seq<byte>)
    ensures |w| == |s| % ADAPTIVE_WINDOW
  {
    s[|s| - |s| % ADAPTIVE_WINDOW..]
  }

  lemma OpenNext(s: seq<byte>, b: byte)
    ensures var w := Open(s) + [b];
            Open(s + [b]) == if |w| == ADAPTIVE_WINDOW then [] else w
  {
    var t := s + [b];
    if |s| % ADAPTIVE_WINDOW + 1 == ADAPTIVE_WINDOW {
      assert |t| % ADAPTIVE_WINDOW == 0;
    } else {
      assert |t| % ADAPTIVE_WINDOW == |s| % ADAPTIVE_WINDOW + 1;
    }
  }

  /** A stream without a dominated window has one now only if it is the one the new byte is in. */
  lemma {:induction false} DominatedAtEnd(s: seq<byte>, b: byte)
    requires NeverDominated(s)
    ensures NeverDominated(s + [b]) <==> !Dominated(Open(s) + [b])
  {
    hide Dominated;
    var t, k0 := s + [b], |s| / ADAPTIVE_WINDOW;
    assert Window(t, k0) == Open(s) + [b];
    if !Dominated(Open(s) + [b]) {
      forall k: nat | ADAPTIVE_WINDOW * k < |t| ensures !Dominated(Window(t, k)) {
        if k != k0 {
          assert k < k0;
          assert ADAPTIVE_WINDOW * k + ADAPTIVE_WINDOW <= |s|;
          assert Window(t, k) == Window(s, k);
        }
      }
    }
  }

  /** What is found wrong with a stream at its last byte. */
  ghost function Found(s: seq<byte>, b: byte): HealthError {
    if EndRun(s + [b]) >= REPETITION_CUTOFF then Repetition(b, EndRun(s + [b]))
    else AdaptiveProportion((Open(s) + [b])[0], Copies(Open(s) + [b], (Open(s) + [b])[0]))
  }

  lemma {:induction false} CleanNext(s: seq<byte>, b: byte)
    requires Clean(s)
    ensures Clean(s + [b]) <==> EndRun(s + [b]) < REPETITION_CUTOFF && !Dominated(Open(s) + [b])
  {
    hide NeverStuck, NeverDominated, Dominated;
    StuckAtEnd(s, b);
    DominatedAtEnd(s, b);
  }

  lemma {:induction false} NothingIsClean()
    ensures Clean([])
  {
  }

  lemma {:induction false} CopiesUpTo(s: seq<byte>, n: nat, b: byte)
    requires n <= |s|
    ensures Copies(s[..n], b) <= Copies(s, b)
  {
    if n < |s| {
      CopiesUpTo(s[..|s| - 1], n, b);
      assert s[..|s| - 1][..n] == s[..n];
    } else {
      assert s[..n] == s;
    }
  }

  lemma WindowOfPrefix(s: seq<byte>, n: nat, k: nat)
    requires n <= |s| && ADAPTIVE_WINDOW * k < n
    ensures var v, w := Window(s[..n], k), Window(s, k);
            |v| <= |w| && v == w[..|v|]
  {
    var start := ADAPTIVE_WINDOW * k;
    var v, w := Window(s[..n], k), Window(s, k);
    forall i | 0 <= i < |v| ensures v[i] == w[i] {
      assert v[i] == s[start + i] == w[i];
    }
  }

  /** What comes before in a clean stream is clean. */
  lemma {:induction false} CleanBefore(s: seq<byte>, n: nat)
    requires n <= |s| && Clean(s)
    ensures Clean(s[..n])
  {
    var p := s[..n];
    forall i: nat | i + REPETITION_CUTOFF <= |p| ensures !Stuck(p, i) {
      assert !Stuck(s, i);
    }
    forall k: nat | ADAPTIVE_WINDOW * k < |p| ensures !Dominated(Window(p, k)) {
      assert !Dominated(Window(s, k));
      var w := Window(s, k);
      WindowOfPrefix(s, n, k);
      CopiesUpTo(w, |Window(p, k)|, w[0]);
    }
  }

  lemma {:induction false} ConstantIsStuck(before: seq<byte>, sample: seq<byte>)
    requires |sample| >= MIN_SAMPLE && forall i :: 0 <= i < |sample| ==> sample[i] == sample[0]
    ensures !Clean(before + sample)
  {
    var s := before + sample;
    assert Stuck(s, |before|);
  }

  // ---------------------------------------------------------------------------
  // The continuous test
  // ---------------------------------------------------------------------------

  /** The fields after a clean stream. */
  ghost predicate Counts(s: seq<byte>, last: Option<byte>, run: nat, value: byte, count: nat, windowSeen: nat, started: bool) {
    && last == (if s == [] then None else Some(s[|s| - 1]))
    && run == EndRun(s)
    && (started <==> Open(s) != [])
    && (started ==> value == Open(s)[0] && windowSeen == |Open(s)| && count == Copies(Open(s), Open(s)[0]))
  }

  class ContinuousTest {
    var last: Option<byte>
    var run: nat
    var windowValue: byte
    var windowCount: nat
    var windowSeen: nat
    var windowStarted: bool
    /** The bytes that have been judged, and whether none of them has tripped a test. */
    ghost var stream: seq<byte>
    ghost var sound: bool

    ghost predicate Valid()
      reads this
    {
      sound ==> Clean(stream) && Counts(stream, last, run, windowValue, windowCount, windowSeen, windowStarted)
    }

    constructor ()
      ensures Valid() && sound && stream == []
    {
      last, run, windowValue, windowCount, windowSeen, windowStarted := None, 0, 0, 0, 0, false;
      stream, sound := [], true;
      NothingIsClean();
    }

    /** The repetition count. */
    method CountRun(b: byte) returns (tripped: bool)
      modifies this`last, this`run
      ensures last == Some(b) && run == if old(last) == Some(b) then old(run) + 1 else 1
      ensures tripped <==> run >= REPETITION_CUTOFF
    {
      if last == Some(b) {
        run := run + 1;
      } else {
        last := Some(b);
        run := 1;
      }
      tripped := run >= REPETITION_CUTOFF;
    }

    /** The adaptive proportion. */
    method CountWindow(b: byte) returns (tripped: bool)
      modifies this`windowValue, this`windowCount, this`windowSeen, this`windowStarted
      ensures !old(windowStarted) ==> !tripped && windowStarted && windowValue == b && windowCount == 1 && windowSeen == 1
      ensures old(windowStarted) ==>
                && windowValue == old(windowValue) && windowSeen == old(windowSeen) + 1
                && windowCount == old(windowCount) + (if b == windowValue then 1 else 0)
                && (tripped <==> b == windowValue && windowCount >= ADAPTIVE_CUTOFF)
                && (!tripped ==> (windowStarted <==> windowSeen < ADAPTIVE_WINDOW))
    {
      if !windowStarted {
        windowStarted, windowValue, windowCount, windowSeen := true, b, 1, 1;
        return false;
      }
      windowSeen := windowSeen + 1;
      if b == windowValue {
        windowCount := windowCount + 1;
        if windowCount >= ADAPTIVE_CUTOFF {
          return true;
        }
      }
      if windowSeen >= ADAPTIVE_WINDOW {
        windowStarted := false;
      }
      return false;
    }

    /** One judged byte. */
    method CheckByte(b: byte) returns (e: Option<HealthError>)
      requires Valid()
      modifies this
      ensures Valid() && sound == (old(sound) && e.None?) && stream == old(stream) + [b]
      ensures e.Some? ==> !e.value.TooShort? && !e.value.Constant?
      ensures old(sound) ==> (e.None? <==> Clean(old(stream) + [b])) && (e.Some? ==> e.value == Found(old(stream), b))
    {
      hide Clean, Found, Open, EndRun, Copies, Dominated;
      ghost var before := stream;
      ghost var was := sound;
      stream := stream + [b];
      sound := false;
      if was {
        CleanNext(before, b);
        RunNext(before, b);
        WindowNext(before, b);
      }
      var stuck := CountRun(b);
      if stuck {
        FoundIs(before, b);
        return Some(Repetition(b, run));
      }
      var dominated := CountWindow(b);
      if dominated {
        FoundIs(before, b);
        return Some(AdaptiveProportion(windowValue, windowCount));
      }
      sound := was;
      return None;
    }

    static lemma {:induction false} RunNext(s: seq<byte>, b: byte)
      ensures EndRun(s + [b]) == if s != [] && s[|s| - 1] == b then EndRun(s) + 1 else 1
    {
      assert (s + [b])[..|s|] == s;
    }

    /** What the new byte makes of the open window. */
    static lemma {:induction false} WindowNext(s: seq<byte>, b: byte)
      requires Clean(s)
      ensures var w := Open(s) + [b];
              && Open(s + [b]) == (if |w| == ADAPTIVE_WINDOW then [] else w)
              && Copies(w, w[0]) == (if Open(s) == [] then 1 else Copies(Open(s), w[0]) + (if b == w[0] then 1 else 0))
              && (Open(s) != [] ==> w[0] == Open(s)[0] && Copies(Open(s), w[0]) < ADAPTIVE_CUTOFF)
              && (Dominated(w) <==> Copies(w, w[0]) >= ADAPTIVE_CUTOFF)
    {
      OpenNext(s, b);
      var w := Open(s) + [b];
      assert w[..|w| - 1] == Open(s);
      if Open(s) == [] {
        assert Copies([], b) == 0;
      } else {
        var k := |s| / ADAPTIVE_WINDOW;
        assert Window(s, k) == Open(s);
        assert !Dominated(Window(s, k));
      }
    }

    static lemma FoundIs(s: seq<byte>, b: byte)
      ensures Found(s, b) == if EndRun(s + [b]) >= REPETITION_CUTOFF then Repetition(b, EndRun(s + [b]))
                             else AdaptiveProportion((Open(s) + [b])[0], Copies(Open(s) + [b], (Open(s) + [b])[0]))
    {
    }

    /** Feed a fresh sample. */
    method Check(sample: seq<byte>) returns (e: Option<HealthError>)
      requires Valid()
      modifies this
      ensures Valid()
      ensures |sample| < MIN_SAMPLE ==> e == Some(TooShort(|sample|)) && sound == old(sound) && stream == old(stream)
      ensures |sample| >= MIN_SAMPLE && old(sound) ==>
                && (e.None? <==> Clean(old(stream) + sample))
                && sound == e.None? && (e.None? ==> stream == old(stream) + sample)
                && (e.Some? ==> Explained(old(stream), sample, e.value))
      ensures |sample| >= MIN_SAMPLE ==> (e.Some? ==> !e.value.TooShort?) && (!old(sound) ==> !sound)
      ensures |sample| >= MIN_SAMPLE ==>
                (e.Some? && e.value.Constant? <==> forall i :: 0 <= i < |sample| ==> sample[i] == sample[0])
    {
      hide Clean, Found, Counts;
      if |sample| < MIN_SAMPLE {
        return Some(TooShort(|sample|));
      }
      if AllEqual(sample) {
        ConstantIsStuck(stream, sample);
        sound := false;
        return Some(Constant(sample[0]));
      }
      ghost var before, was := stream, sound;
      for i := 0 to |sample|
        invariant Valid() && sound == was && stream == before + sample[..i]
        invariant was ==> Clean(before + sample[..i])
      {
        assert before + sample[..i] + [sample[i]] == before + sample[..i + 1];
        e := CheckByte(sample[i]);
        if e.Some? {
          if was {
            NotCleanAfter(before, sample, i + 1);
          }
          return;
        }
      }
      assert before + sample[..|sample|] == before + sample;
      return None;
    }

    static predicate AllEqual(sample: seq<byte>)
      requires sample != []
    {
      forall i :: 0 <= i < |sample| ==> sample[i] == sample[0]
    }

    static lemma NotCleanAfter(before: seq<byte>, sample: seq<byte>, n: nat)
      requires n <= |sample| && !Clean(before + sample[..n])
      ensures !Clean(before + sample)
    {
      assert (before + sample)[..|before| + n] == before + sample[..n];
      if Clean(before + sample) {
        CleanBefore(before + sample, |before| + n);
      }
    }
  }

  /** Why a sample was refused: it is one byte over and over, or the first byte that spoils the stream. */
  ghost predicate Explained(before: seq<byte>, sample: seq<byte>, e: HealthError)
    requires |sample| >= MIN_SAMPLE
  {
    || (ContinuousTest.AllEqual(sample) && e == Constant(sample[0]))
    || exists n: nat :: n < |sample| && Clean(before + sample[..n]) && !Clean(before + sample[..n + 1])
                        && e == Found(before + sample[..n], sample[n])
  }

  // ---------------------------------------------------------------------------
  // Any split into reads
  // ---------------------------------------------------------------------------

  /** The bytes of the reads long enough to be judged. */
  function Judged(draws: seq<seq<byte>>): seq<byte> {
    if draws == [] then []
    else
      var last := draws[|draws| - 1];
      Judged(draws[..|draws| - 1]) + (if |last| >= MIN_SAMPLE then last else [])
  }

  lemma {:induction false} JudgedBefore(draws: seq<seq<byte>>, k: nat)
    requires k <= |draws|
    ensures Judged(draws[..k]) <= Judged(draws)
  {
    if k == |draws| {
      assert draws[..k] == draws;
    } else {
      JudgedBefore(draws[..|draws| - 1], k);
      assert draws[..|draws| - 1][..k] == draws[..k];
    }
  }

  /** However a stream is split into reads, every one of them passes just when the whole stream is clean. */
  method CheckAll(draws: seq<seq<byte>>) returns (passed: bool)
    ensures passed <==> Clean(Judged(draws))
  {
    hide Clean;
    var test := new ContinuousTest();
    NothingIsClean();
    for k := 0 to |draws|
      invariant fresh(test) && test.Valid() && test.sound && test.stream == Judged(draws[..k]) && Clean(Judged(draws[..k]))
    {
      assert draws[..k + 1][..k] == draws[..k];
      var e := test.Check(draws[k]);
      if e.Some? && !e.value.TooShort? {
        SpoiledBefore(draws, k + 1);
        return false;
      }
      assert |draws[k]| < MIN_SAMPLE ==> Judged(draws[..k]) + [] == Judged(draws[..k]);
    }
    assert draws[..|draws|] == draws;
    return true;
  }

  lemma {:induction false} SpoiledBefore(draws: seq<seq<byte>>, k: nat)
    requires k <= |draws| && !Clean(Judged(draws[..k]))
    ensures !Clean(Judged(draws))
  {
    JudgedBefore(draws, k);
    assert Judged(draws)[..|Judged(draws[..k])|] == Judged(draws[..k]);
    if Clean(Judged(draws)) {
      CleanBefore(Judged(draws), |Judged(draws[..k])|);
    }
  }

  // ---------------------------------------------------------------------------
  // The start-up test
  // ---------------------------------------------------------------------------

  datatype Startup = Pending(tested: nat) | Passed | Failed(error: HealthError)

  /** Where the start-up test should stand after some reads. */
  ghost predicate Stands(draws: seq<seq<byte>>, state: Startup) {
    match state
    case Pending(tested) => tested == |Judged(draws)| < STARTUP_SAMPLES && Clean(Judged(draws))
    case Passed => exists k: nat :: Reaches(draws, k) && Clean(Judged(draws[..k]))
    case Failed(_) => exists k: nat :: FailsAt(draws, k)
  }

  /** Read `k - 1` is the one that brings what was judged to enough. */
  ghost predicate Reaches(draws: seq<seq<byte>>, k: nat) {
    0 < k <= |draws| && |Judged(draws[..k - 1])| < STARTUP_SAMPLES <= |Judged(draws[..k])|
  }

  /** Read `k - 1` spoils the stream before enough was judged. */
  ghost predicate FailsAt(draws: seq<seq<byte>>, k: nat) {
    0 < k <= |draws| && |Judged(draws[..k - 1])| < STARTUP_SAMPLES && !Clean(Judged(draws[..k]))
  }

  lemma {:induction false} JudgedGrows(draws: seq<seq<byte>>, j: nat, k: nat)
    requires j <= k <= |draws|
    ensures Judged(draws[..j]) <= Judged(draws[..k])
  {
    JudgedBefore(draws[..k], j);
    assert draws[..k][..j] == draws[..j];
  }

  /** No reads leave the start-up test in two minds. */
  lemma {:induction false} PassedNotFailed(draws: seq<seq<byte>>, k: nat, j: nat)
    requires Reaches(draws, k) && Clean(Judged(draws[..k]))
    ensures !FailsAt(draws, j)
  {
    hide Clean;
    if j <= k {
      JudgedGrows(draws, j, k);
      assert Judged(draws[..k])[..|Judged(draws[..j])|] == Judged(draws[..j]);
      CleanBefore(Judged(draws[..k]), |Judged(draws[..j])|);
    } else if j <= |draws| {
      JudgedGrows(draws, k, j - 1);
    }
  }

  /** It passes just when the shortest run of reads that is enough is clean; until there is one it is pending. */
  lemma {:induction false} StandsIff(draws: seq<seq<byte>>, state: Startup)
    requires Stands(draws, state)
    ensures state.Passed? <==> exists k: nat :: Reaches(draws, k) && Clean(Judged(draws[..k]))
    ensures state.Pending? <==> |Judged(draws)| < STARTUP_SAMPLES && Clean(Judged(draws))
  {
    hide Clean;
    assert draws[..|draws|] == draws;
    match state
    case Pending(_) =>
      if k: nat :| Reaches(draws, k) {
        JudgedGrows(draws, k, |draws|);
      }
    case Passed =>
      var k: nat :| Reaches(draws, k) && Clean(Judged(draws[..k]));
      JudgedGrows(draws, k, |draws|);
    case Failed(_) =>
      var j: nat :| FailsAt(draws, j);
      if k: nat :| Reaches(draws, k) && Clean(Judged(draws[..k])) {
        PassedNotFailed(draws, k, j);
      }
      SpoiledBefore(draws, j);
  }

  /** A verdict stands, whatever is read after it. */
  lemma {:induction false} VerdictIsFinal(draws: seq<seq<byte>>, state: Startup, next: seq<byte>)
    requires Stands(draws, state) && !state.Pending?
    ensures Stands(draws + [next], state)
  {
    hide Clean;
    var all := draws + [next];
    match state
    case Passed =>
      var k: nat :| Reaches(draws, k) && Clean(Judged(draws[..k]));
      assert all[..k] == draws[..k] && all[..k - 1] == draws[..k - 1];
      assert Reaches(all, k);
    case Failed(_) =>
      var k: nat :| FailsAt(draws, k);
      assert all[..k] == draws[..k] && all[..k - 1] == draws[..k - 1];
      assert FailsAt(all, k);
  }

  class StartupTest {
    const continuous: ContinuousTest
    var state: Startup
    /** The reads so far. */
    ghost var draws: seq<seq<byte>>

    ghost predicate Valid()
      reads this, continuous
    {
      && continuous.Valid() && Stands(draws, state)
      && (state.Pending? ==> continuous.sound && continuous.stream == Judged(draws))
    }

    constructor ()
      ensures Valid() && fresh(continuous) && draws == [] && state == Pending(0)
    {
      hide Clean, Stands, Judged, ContinuousTest.Valid;
      continuous := new ContinuousTest();
      state, draws := Pending(0), [];
      new;
      NothingStands();
    }

    /** Feed the source's next read; the continuous verdict on it comes back. */
    method Feed(sample: seq<byte>) returns (verdict: Option<HealthError>)
      requires Valid()
      modifies this, continuous
      ensures Valid() && draws == old(draws) + [sample]
      ensures !old(state).Pending? ==> state == old(state)
      ensures |sample| < MIN_SAMPLE ==> state == old(state)
      ensures old(state).Pending? && |sample| >= MIN_SAMPLE ==> (verdict.None? <==> Clean(Judged(draws)))
      ensures old(state).Pending? && verdict.Some? && |sample| >= MIN_SAMPLE ==> state == Failed(verdict.value)
    {
      hide Clean, Explained, Stands;
      ghost var before, was := draws, state;
      verdict := continuous.Check(sample);
      draws := draws + [sample];
      JudgedNext(before, sample);
      if state.Pending? {
        StandsAfter(before, state.tested, sample, verdict);
        if verdict.None? {
          var tested := state.tested + |sample|;
          state := if tested >= STARTUP_SAMPLES then Passed else Pending(tested);
        } else if !verdict.value.TooShort? {
          state := Failed(verdict.value);
        }
      } else {
        VerdictIsFinal(before, state, sample);
      }
    }
  }

  lemma {:induction false} NothingStands()
    ensures Stands([], Pending(0)) && Judged([]) == []
  {
    NothingIsClean();
  }

  lemma {:induction false} JudgedNext(before: seq<seq<byte>>, sample: seq<byte>)
    ensures Judged(before + [sample]) == if |sample| >= MIN_SAMPLE then Judged(before) + sample else Judged(before)
  {
    assert (before + [sample])[..|before|] == before;
  }

  /** How one read moves a pending start-up test on. */
  lemma {:induction false} StandsAfter(before: seq<seq<byte>>, tested: nat, sample: seq<byte>, verdict: Option<HealthError>)
    requires Stands(before, Pending(tested))
    requires |sample| < MIN_SAMPLE ==> verdict.Some? && verdict.value.TooShort?
    requires |sample| >= MIN_SAMPLE ==> (verdict.None? <==> Clean(Judged(before) + sample))
    ensures var all, n := before + [sample], tested + |sample|;
            && (verdict.None? ==> Stands(all, if n >= STARTUP_SAMPLES then Passed else Pending(n)))
            && (|sample| < MIN_SAMPLE ==> Stands(all, Pending(tested)))
            && (verdict.Some? && |sample| >= MIN_SAMPLE ==> Stands(all, Failed(verdict.value)))
  {
    hide Clean;
    var all := before + [sample];
    JudgedNext(before, sample);
    assert all[..|all|] == all && all[..|all| - 1] == before;
    if |sample| >= MIN_SAMPLE {
      if verdict.Some? {
        assert FailsAt(all, |all|);
      } else if tested + |sample| >= STARTUP_SAMPLES {
        assert Reaches(all, |all|);
      }
    }
  }
}
