/** weexion.cpp, needIdleNotification: when a garbage collection is asked for.

    Calls of execJS are counted. Once there have been enough, every third one asks for a collection,
    the last of them are sampled, and after ten samples a flag goes down for good.
 */
module IdleNotifications {

  const MIN_EXECJS_COUNT := 100
  const SAMPLING_BEGIN := 5
  const DENOM_VALUE := 3
  const SAMPLING_MAX := 10

  /** The four static variables. */
  datatype State = State(execJSCount: nat, lastExecJSCount: nat, samplingExecJSCount: nat, flag: bool)

  const INITIAL := State(0, 0, 0, true)

  /** needIdleNotification: the next state and the answer. max is MAX_EXECJS_COUNT. */
  function Need(max: nat, s: State): (State, bool) {
    if !s.flag then (s, false)
    else
      var count := if s.execJSCount == max then MIN_EXECJS_COUNT else s.execJSCount;
      var t := s.(execJSCount := count + 1);
      if count < MIN_EXECJS_COUNT then (t, false)
      else
        if t.execJSCount == t.lastExecJSCount + SAMPLING_BEGIN then
          (t.(samplingExecJSCount := 0), t.execJSCount % DENOM_VALUE == 0)
        else if t.execJSCount > t.lastExecJSCount + SAMPLING_BEGIN then
          var n := (if t.samplingExecJSCount == max then 0 else t.samplingExecJSCount) + 1;
          (t.(samplingExecJSCount := n, flag := n < SAMPLING_MAX), n % DENOM_VALUE == 0)
        else (t, t.execJSCount % DENOM_VALUE == 0)
  }

  /** markupStateInternally. */
  function Markup(max: nat, s: State): State {
    var count := if s.execJSCount + SAMPLING_BEGIN == max then MIN_EXECJS_COUNT else s.execJSCount;
    State(count, count, 0, true)
  }

  /** resetIdleNotificationCount. */
  function Reset(s: State): State {
    s.(execJSCount := 0, flag := true)
  }

  /** The static variables, and the functions that change them. */
  class IdleNotifier {
    const max: nat
    var execJSCount: nat
    var lastExecJSCount: nat
    var samplingExecJSCount: nat
    var flag: bool

    function Now(): State
      reads this
    {
      State(execJSCount, lastExecJSCount, samplingExecJSCount, flag)
    }

    constructor (max: nat)
      ensures this.max == max && Now() == INITIAL
    {
      this.max, execJSCount, lastExecJSCount, samplingExecJSCount, flag := max, 0, 0, 0, true;
    }

    method NeedIdleNotification() returns (need: bool)
      modifies this
      ensures (Now(), need) == Need(max, old(Now()))
    {
      if !flag {
        return false;
      }
      if execJSCount == max {
        execJSCount := MIN_EXECJS_COUNT;
      }
      execJSCount := execJSCount + 1;
      if execJSCount - 1 < MIN_EXECJS_COUNT {
        return false;
      }
      if execJSCount == MIN_EXECJS_COUNT {
        // The source sets lastExecJSCount here, but the count is past 100 by now.
        assert false;
      }
      if execJSCount == lastExecJSCount + SAMPLING_BEGIN {
        samplingExecJSCount := 0;
      } else if execJSCount > lastExecJSCount + SAMPLING_BEGIN {
        if samplingExecJSCount == max {
          samplingExecJSCount := 0;
        }
        samplingExecJSCount := samplingExecJSCount + 1;
        if samplingExecJSCount >= SAMPLING_MAX {
          flag := false;
        }
        return samplingExecJSCount % DENOM_VALUE == 0;
      }
      return execJSCount % DENOM_VALUE == 0;
    }

    method MarkupStateInternally()
      modifies this
      ensures Now() == Markup(max, old(Now()))
    {
      if execJSCount + SAMPLING_BEGIN == max {
        execJSCount := MIN_EXECJS_COUNT;
      }
      lastExecJSCount := execJSCount;
      flag := true;
      samplingExecJSCount := 0;
    }

    method ResetIdleNotificationCount()
      modifies this
      ensures Now() == Reset(old(Now()))
    {
      execJSCount := 0;
      flag := true;
    }
  }

  /** n calls in a row. */
  function After(max: nat, s: State, n: nat): State {
    if n == 0 then s else Need(max, After(max, s, n - 1)).0
  }

  /** What the call number n answers. */
  function Answer(max: nat, s: State, n: nat): bool
    requires n > 0
  {
    Need(max, After(max, s, n - 1)).1
  }

  /** How many of the first n calls say yes. */
  function Yes(max: nat, s: State, n: nat): nat {
    if n == 0 then 0 else Yes(max, s, n - 1) + if Answer(max, s, n) then 1 else 0
  }

  /** The count after which calls are samples: the fifth one from the last markup, unless that comes
      before the count of 100. */
  function SamplingFrom(s: State): nat {
    var begin := s.lastExecJSCount + SAMPLING_BEGIN;
    if s.execJSCount < begin && MIN_EXECJS_COUNT < begin then begin
    else if s.execJSCount < MIN_EXECJS_COUNT then MIN_EXECJS_COUNT
    else s.execJSCount
  }

  /** The number of samples there are already when sampling begins: begun at the fifth call it begins
      with none, else with what was left from before. */
  function SamplesBefore(s: State): nat {
    var begin := s.lastExecJSCount + SAMPLING_BEGIN;
    if s.execJSCount < begin && MIN_EXECJS_COUNT < begin then 0 else s.samplingExecJSCount
  }

  /** How many calls there are until the flag goes down. */
  function CallsToGo(s: State): nat {
    var samples := if SamplesBefore(s) < SAMPLING_MAX - 1 then SAMPLING_MAX - SamplesBefore(s) else 1;
    SamplingFrom(s) + samples - s.execJSCount
  }

  /** Everything about the first calls from a state with the flag up, until the count comes to its
      maximum or the flag goes down. */
  lemma {:induction false} Course(max: nat, s: State, n: nat)
    requires s.flag && n <= CallsToGo(s) && s.execJSCount + n <= max && s.samplingExecJSCount < max
    ensures var t, b := After(max, s, n), SamplingFrom(s);
            && t.execJSCount == s.execJSCount + n && t.lastExecJSCount == s.lastExecJSCount
            && (t.execJSCount < b ==> t.samplingExecJSCount == s.samplingExecJSCount)
            && (t.execJSCount >= b && (n > 0 || t.execJSCount > b) ==>
                  t.samplingExecJSCount == SamplesBefore(s) + (t.execJSCount - b))
            && (t.flag <==> n < CallsToGo(s))
    ensures n > 0 ==> (Answer(max, s, n) <==> var count := s.execJSCount + n;
                                              if count <= MIN_EXECJS_COUNT then false
                                              else if count <= SamplingFrom(s) then count % DENOM_VALUE == 0
                                              else (SamplesBefore(s) + (count - SamplingFrom(s))) % DENOM_VALUE == 0)
  {
    if n > 0 {
      Course(max, s, n - 1);
    }
  }

  /** The flag goes down after exactly CallsToGo calls; from then on nothing changes, nor is anything
      counted. */
  lemma {:induction false} GoesDown(max: nat, s: State, n: nat)
    requires s.flag && s.execJSCount + CallsToGo(s) <= max && s.samplingExecJSCount < max
    ensures After(max, s, n).flag <==> n < CallsToGo(s)
    ensures n > CallsToGo(s) ==> !Answer(max, s, n)
    ensures n > CallsToGo(s) ==> After(max, s, n) == After(max, s, CallsToGo(s))
    ensures n >= CallsToGo(s) ==> After(max, s, n).execJSCount == s.execJSCount + CallsToGo(s)
  {
    if n <= CallsToGo(s) {
      Course(max, s, n);
    } else {
      GoesDown(max, s, n - 1);
    }
  }

  /** After a markup at count c the flag goes down at the call number 110 - c, and at the fifteenth
      one from count 95 on. */
  lemma MarkupCourse(max: nat, s: State, n: nat)
    requires s.execJSCount + SAMPLING_BEGIN != max && s.execJSCount + 15 <= max && 110 <= max
    ensures var go := if s.execJSCount <= 95 then 110 - s.execJSCount else 15;
            CallsToGo(Markup(max, s)) == go && (After(max, Markup(max, s), n).flag <==> n < go)
  {
    GoesDown(max, Markup(max, s), n);
  }

  function Thirds(n: nat): nat {
    n / DENOM_VALUE
  }

  /** How often the calls say yes after a markup: once for every multiple of three among the counts
      that are not sampled, and three times while sampling. */
  lemma {:induction false} MarkupYes(max: nat, s: State, n: nat)
    requires s.execJSCount + SAMPLING_BEGIN != max
    requires var m := Markup(max, s); n <= CallsToGo(m) && m.execJSCount + CallsToGo(m) <= max && 0 < max
    ensures var m := Markup(max, s); var c, b := m.execJSCount, SamplingFrom(m);
            var from := if c < MIN_EXECJS_COUNT then MIN_EXECJS_COUNT else c;
            Yes(max, m, n) == if c + n <= from then 0
                              else if c + n <= b then Thirds(c + n) - Thirds(from)
                              else Thirds(b) - Thirds(from) + Thirds(c + n - b)
  {
    hide After;
    hide Answer;
    if n > 0 {
      MarkupYes(max, s, n - 1);
      Course(max, Markup(max, s), n);
    }
  }

  /** At most five times altogether. */
  lemma AtMostFive(max: nat, s: State, n: nat)
    requires s.execJSCount + SAMPLING_BEGIN != max && 0 < max
    requires var m := Markup(max, s); m.execJSCount + CallsToGo(m) <= max
    ensures Yes(max, Markup(max, s), n) <= 5
    ensures n >= CallsToGo(Markup(max, s)) ==> Yes(max, Markup(max, s), n) >= 3
    decreases n
  {
    var m := Markup(max, s);
    if n <= CallsToGo(m) {
      MarkupYes(max, s, n);
    } else {
      AtMostFive(max, s, n - 1);
      GoesDown(max, m, n);
    }
  }

  /** From the start exactly the calls 103, 106 and 109 say yes. */
  lemma FromTheStart(max: nat, n: nat)
    requires 110 <= max && n > 0
    ensures Answer(max, INITIAL, n) <==> n == 103 || n == 106 || n == 109
    ensures After(max, INITIAL, n).flag <==> n < 110
  {
    hide Answer;
    hide After;
    assert CallsToGo(INITIAL) == 110;
    GoesDown(max, INITIAL, n);
    if n <= 110 {
      Course(max, INITIAL, n);
      MultiplesFrom(n);
    }
  }

  lemma MultiplesFrom(n: nat)
    requires n <= 110
    ensures n > 100 && (n - 100) % DENOM_VALUE == 0 <==> n == 103 || n == 106 || n == 109
  {
  }

  /** Too near to the maximum: the count starts again at 100 before ten samples are taken. */
  ghost predicate Stuck(max: nat, s: State) {
    && s.flag && s.execJSCount <= max < s.lastExecJSCount + 15
    && (s.execJSCount >= s.lastExecJSCount + SAMPLING_BEGIN ==>
          s.samplingExecJSCount <= s.execJSCount - s.lastExecJSCount - SAMPLING_BEGIN)
  }

  lemma {:induction false} StuckForever(max: nat, s: State, n: nat)
    requires Stuck(max, s) && max >= 200
    ensures Stuck(max, After(max, s, n))
  {
    if n > 0 {
      StuckForever(max, s, n - 1);
    }
  }

  /** Counting past the maximum starts again behind 100. */
  function Cycled(max: nat, k: nat): (c: nat)
    requires MIN_EXECJS_COUNT < max
    ensures c <= max && (k > MIN_EXECJS_COUNT ==> c > MIN_EXECJS_COUNT)
  {
    if k <= max then k else Cycled(max, k - (max - MIN_EXECJS_COUNT))
  }

  lemma {:induction false} CycledNext(max: nat, k: nat)
    requires MIN_EXECJS_COUNT < max
    ensures Cycled(max, k + 1) == if Cycled(max, k) == max then MIN_EXECJS_COUNT + 1 else Cycled(max, k) + 1
  {
    if k > max {
      CycledNext(max, k - (max - MIN_EXECJS_COUNT));
    }
  }

  lemma LateCall(max: nat, c: nat, t: State)
    requires max >= 200 && c <= max < c + 15 && MIN_EXECJS_COUNT < t.execJSCount <= max && t.flag && t.lastExecJSCount == c
    requires t.execJSCount >= c + SAMPLING_BEGIN ==> t.samplingExecJSCount == t.execJSCount - (c + SAMPLING_BEGIN)
    ensures var (u, yes) := Need(max, t);
            && u.flag && u.execJSCount == (if t.execJSCount == max then MIN_EXECJS_COUNT + 1 else t.execJSCount + 1)
            && u.lastExecJSCount == c
            && (u.execJSCount >= c + SAMPLING_BEGIN ==> u.samplingExecJSCount == u.execJSCount - (c + SAMPLING_BEGIN))
            && (yes <==> (if u.execJSCount <= c + SAMPLING_BEGIN then u.execJSCount
                          else u.execJSCount - (c + SAMPLING_BEGIN)) % DENOM_VALUE == 0)
  {
  }

  /** Everything about all calls after a markup that comes too late: the count goes round, and samples
      begin anew in every round, if it gets that far. */
  lemma {:induction false} LateCourse(max: nat, s: State, n: nat)
    requires max >= 200 && s.execJSCount <= max < s.execJSCount + 15 && s.execJSCount + SAMPLING_BEGIN != max
    ensures var c, t := s.execJSCount, After(max, Markup(max, s), n); var b := c + SAMPLING_BEGIN;
            && t.flag && t.execJSCount == Cycled(max, c + n) && t.lastExecJSCount == c
            && (t.execJSCount >= b ==> t.samplingExecJSCount == t.execJSCount - b)
    ensures n > 0 ==> (Answer(max, Markup(max, s), n) <==>
                         var c, b := Cycled(max, s.execJSCount + n), s.execJSCount + SAMPLING_BEGIN;
                         (if c <= b then c else c - b) % DENOM_VALUE == 0)
  {
    if n > 0 {
      LateCourse(max, s, n - 1);
      CycledNext(max, s.execJSCount + n - 1);
      LateCall(max, s.execJSCount, After(max, Markup(max, s), n - 1));
      hide Need;
    }
  }

  /** So the flag goes down at some time after a markup if and only if the count was at least 15 short
      of the maximum, or exactly 5, where markup starts the count again. */
  lemma GoesDownIff(max: nat, s: State)
    requires s.execJSCount <= max && max >= 200
    ensures (exists n :: !After(max, Markup(max, s), n).flag)
            <==> s.execJSCount + 15 <= max || s.execJSCount + SAMPLING_BEGIN == max
  {
    var m := Markup(max, s);
    if s.execJSCount + 15 <= max || s.execJSCount + SAMPLING_BEGIN == max {
      GoesDown(max, m, CallsToGo(m));
      assert !After(max, m, CallsToGo(m)).flag;
    } else {
      forall n ensures After(max, m, n).flag {
        StuckForever(max, m, n);
      }
    }
  }

  /** A markup at the maximum: the flag stays up for good. */
  lemma NeverDown(max: nat, n: nat)
    requires max >= 200
    ensures After(max, Markup(max, State(max, 0, 0, true)), n).flag
  {
    StuckForever(max, Markup(max, State(max, 0, 0, true)), n);
  }

  /** The last markup was early enough, and no sample is left over. */
  predicate Fresh(s: State) {
    s.lastExecJSCount <= 95 && s.samplingExecJSCount == 0
  }

  /** A reset is not a fresh start: what was sampled and marked before stays. The flag goes its initial
      way exactly from a fresh state, and so do the answers. */
  lemma ResetCourse(max: nat, s: State)
    requires s.lastExecJSCount <= max && s.samplingExecJSCount < max && max >= 200
    ensures (forall n: nat :: After(max, Reset(s), n).flag == After(max, INITIAL, n).flag) <==> Fresh(s)
    ensures (forall n: nat :: n > 0 ==> Answer(max, Reset(s), n) == Answer(max, INITIAL, n)) <==> Fresh(s)
  {
    hide After;
    hide Answer;
    if Fresh(s) {
      forall n: nat
        ensures After(max, Reset(s), n).flag == After(max, INITIAL, n).flag
        ensures n > 0 ==> Answer(max, Reset(s), n) == Answer(max, INITIAL, n)
      {
        SameCourse(max, s, n);
      }
    } else {
      FlagDiffers(max, s);
      AnswerDiffers(max, s);
    }
  }

  lemma SameCourse(max: nat, s: State, n: nat)
    requires max >= 200 && Fresh(s)
    ensures After(max, Reset(s), n).flag == After(max, INITIAL, n).flag
    ensures n > 0 ==> Answer(max, Reset(s), n) == Answer(max, INITIAL, n)
  {
    hide After;
    hide Answer;
    GoesDown(max, Reset(s), n);
    GoesDown(max, INITIAL, n);
    if n <= 110 {
      Course(max, Reset(s), n);
      Course(max, INITIAL, n);
    }
  }

  /** After fewer than 110 calls if samples are left over, and after 110 if the markup was late. */
  lemma FlagDiffers(max: nat, s: State)
    requires s.lastExecJSCount <= max && s.samplingExecJSCount < max && max >= 200 && !Fresh(s)
    ensures exists n: nat :: After(max, Reset(s), n).flag != After(max, INITIAL, n).flag
  {
    hide After;
    var z := Reset(s);
    if s.lastExecJSCount + 15 > max {
      StuckForever(max, z, 110);
      FromTheStart(max, 110);
    } else {
      var n := if CallsToGo(z) < 110 then CallsToGo(z) else 110;
      GoesDown(max, z, n);
      FromTheStart(max, n);
    }
  }

  /** The call number 102 says yes after a late markup, or one of 103 and 109 says no. */
  lemma AnswerDiffers(max: nat, s: State)
    requires s.lastExecJSCount <= max && s.samplingExecJSCount < max && max >= 200 && !Fresh(s)
    ensures exists n: nat :: n > 0 && Answer(max, Reset(s), n) != Answer(max, INITIAL, n)
  {
    hide After;
    hide Answer;
    var z, k := Reset(s), s.samplingExecJSCount;
    if s.lastExecJSCount > 96 {
      Course(max, z, 102);
      FromTheStart(max, 102);
    } else if s.lastExecJSCount == 96 || k <= 2 || k == 4 || k == 5 || k == 7 {
      Course(max, z, 103);
      FromTheStart(max, 103);
    } else {
      var n := if k == 3 || k == 6 then 109 else 103;
      GoesDown(max, z, n);
      FromTheStart(max, n);
    }
  }

  /** After one full course and a reset the flag goes down at the call 101, without a single yes. */
  lemma SecondCourse(max: nat, n: nat)
    requires 110 <= max
    ensures var s := Reset(After(max, INITIAL, 110));
            CallsToGo(s) == 101 && (0 < n <= 101 ==> !Answer(max, s, n))
  {
    Course(max, INITIAL, 110);
    var s := Reset(After(max, INITIAL, 110));
    if 0 < n <= 101 {
      Course(max, s, n);
    }
  }
}
