/** The operation queue and fail-fast runner of `src/OpRunner.ts`: a static
    insertion-ordered map from operation name to operation, filled from a
    registered task by `prepare` and walked in order by `run`, plus the
    description wrapping `breakDescription` used for the progress lines. */
module OpRunner {
  import opened Optional
  import opened Op
  import opened OrderedMap
  import opened Task
  import SpaceFactory

  /** How a run ends: every operation succeeded, or the named one did not. */
  datatype RunOutcome = Completed | Failed(opName: string)

  /** The queue `prepare` builds from a task's operations: each set under its own
      name, in the task's order, starting from an empty map. */
  function Staged(taskOps: seq<Op>): (q: OMap<Op>)
    ensures KeyedBy(q, OpName)
  {
    SetAllKeyedBy(Empty(), taskOps, OpName);
    SetAll(Empty(), taskOps, OpName)
  }

  /** The staged queue holds the task's distinct operation names in the order
      they first occur, each name with the last operation of that name, and
      nothing else. */
  lemma StagedQueue(taskOps: seq<Op>)
    ensures Staged(taskOps).keys == FirstOccurrences(KeysOf(taskOps, OpName))
    ensures forall n :: Staged(taskOps).Get(n) == LastKeyed(taskOps, OpName, n)
  {
    SetAllKeys(Empty(), taskOps, OpName);
    forall n
      ensures Staged(taskOps).Get(n) == LastKeyed(taskOps, OpName, n)
    {
      SetAllGet(Empty(), taskOps, OpName, n);
    }
  }

  /** When the task's operation names are pairwise distinct, the queue's values
      are exactly the task's operations in order. */
  lemma StagedDistinct(taskOps: seq<Op>)
    requires Distinct(KeysOf(taskOps, OpName))
    ensures Staged(taskOps).Values() == taskOps
  {
    var q := Staged(taskOps);
    StagedQueue(taskOps);
    FirstOccurrencesOfDistinct(KeysOf(taskOps, OpName));
    assert q.keys == KeysOf(taskOps, OpName);
    forall a, b | 0 <= a < b < |taskOps|
      ensures OpName(taskOps[a]) != OpName(taskOps[b])
    {
      assert KeysOf(taskOps, OpName)[a] != KeysOf(taskOps, OpName)[b];
    }
    forall i | 0 <= i < |taskOps|
      ensures q.Values()[i] == taskOps[i]
    {
      LastKeyedDistinct(taskOps, OpName, i);
      assert q.Get(OpName(taskOps[i])) == Some(taskOps[i]);
    }
  }

  /** The position of the first operation whose callback does not succeed, or the
      queue's length when all of them succeed. */
  function FailureIndex(q: seq<Op>, respond: Respond): (k: nat)
    ensures k <= |q|
    ensures forall j :: 0 <= j < k ==> respond(j, q[j]).Succeeded()
    ensures k < |q| ==> !respond(k, q[k]).Succeeded()
    decreases |q|
  {
    if q == [] then 0
    else
      var k := FailureIndex(q[..|q| - 1], respond);
      if k < |q| - 1 || !respond(|q| - 1, q[|q| - 1]).Succeeded() then k else |q|
  }

  /** What `run` does with queue `q`: it invokes the operations in queue order up
      to and including the first whose result is neither `undefined` nor `true`,
      and reports that one as failed; if there is none it invokes all of them and
      completes. */
  predicate FailFast(q: seq<Op>, respond: Respond, outcome: RunOutcome, invoked: seq<Op>)
  {
    var k := FailureIndex(q, respond);
    if k < |q| then invoked == q[..k + 1] && outcome == Failed(q[k].name)
    else invoked == q && outcome == Completed
  }

  /** A run invokes a prefix of its queue; it completes exactly when every
      callback succeeds, and otherwise reports as failed the last operation it
      invoked. */
  lemma FailFastShape(q: seq<Op>, respond: Respond, outcome: RunOutcome, invoked: seq<Op>)
    requires FailFast(q, respond, outcome, invoked)
    ensures invoked <= q
    ensures outcome == Completed <==> forall j :: 0 <= j < |q| ==> respond(j, q[j]).Succeeded()
    ensures outcome != Completed ==> invoked != [] && outcome == Failed(invoked[|invoked| - 1].name)
  {
    var k := FailureIndex(q, respond);
    if k < |q| {
      assert invoked[|invoked| - 1] == q[k];
    } else {
      assert q[..|q|] == q;
    }
  }

  /** An empty queue completes without invoking anything. */
  lemma EmptyQueueCompletes(respond: Respond, outcome: RunOutcome, invoked: seq<Op>)
    requires FailFast([], respond, outcome, invoked)
    ensures outcome == Completed && invoked == []
  {
  }

  /** The failure index is the one position that has only successes before it
      and, unless it is the end of the queue, a failure at it. */
  lemma FailureIndexUnique(q: seq<Op>, respond: Respond, k: nat)
    requires k <= |q|
    requires forall j :: 0 <= j < k ==> respond(j, q[j]).Succeeded()
    requires k < |q| ==> !respond(k, q[k]).Succeeded()
    ensures FailureIndex(q, respond) == k
  {
  }

  /** A run in which the `k`-th operation fails invokes exactly the first `k + 1`
      operations; the ones after it are never invoked. */
  lemma FailureStopsRun(q: seq<Op>, respond: Respond, k: nat, outcome: RunOutcome, invoked: seq<Op>)
    requires k < |q| && !respond(k, q[k]).Succeeded()
    requires forall j :: 0 <= j < k ==> respond(j, q[j]).Succeeded()
    requires FailFast(q, respond, outcome, invoked)
    ensures outcome == Failed(q[k].name) && invoked == q[..k + 1]
  {
    FailureIndexUnique(q, respond, k);
  }

  /** A run in which every operation succeeds invokes each of them once, in order,
      and completes. */
  lemma SuccessRunsAll(q: seq<Op>, respond: Respond, outcome: RunOutcome, invoked: seq<Op>)
    requires forall j :: 0 <= j < |q| ==> respond(j, q[j]).Succeeded()
    requires FailFast(q, respond, outcome, invoked)
    ensures outcome == Completed && invoked == q
  {
    FailureIndexUnique(q, respond, |q|);
  }

  /** `OpRunner`: the queue is the static `ops` map. */
  class OpRunner {
    var ops: OMap<Op>

    /** Each operation is queued under its own name. */
    ghost predicate Valid()
      reads this
    {
      KeyedBy(ops, OpName)
    }

    /** `new Map()` */
    constructor ()
      ensures Valid() && ops == Empty()
    {
      ops := Empty();
    }

    /** `prepare(taskName)`: for an unregistered name, returns false before
        touching the queue; otherwise clears the queue, sets each of the task's
        operations under its name in order, and returns true. */
    method Prepare(registry: Registry, taskName: string) returns (found: bool)
      requires Valid() && registry.Valid()
      modifies this
      ensures Valid()
      ensures found == registry.tasks.Has(taskName)
      ensures !found ==> ops == old(ops)
      ensures found ==> ops == Staged(registry.tasks.entries[taskName].ops)
    {
      if !registry.tasks.Has(taskName) {
        return false;
      }
      ops := Empty();
      var taskOps := registry.tasks.entries[taskName].ops;
      for i := 0 to |taskOps|
        invariant ops == SetAll(Empty(), taskOps[..i], OpName)
      {
        assert taskOps[..i + 1][..i] == taskOps[..i];
        ops := ops.Set(taskOps[i].name, taskOps[i]);
      }
      assert taskOps[..|taskOps|] == taskOps;
      assert ops == Staged(taskOps);
      return true;
    }

    /** `clear()` */
    method Clear()
      modifies this
      ensures Valid() && ops == Empty()
    {
      ops := Empty();
    }

    /** `queue(op)`: a new name is appended; a queued name has its operation
        replaced where it stands; nothing else changes. */
    method Queue(op: Op)
      requires Valid()
      modifies this
      ensures Valid()
      ensures ops == old(ops).Set(op.name, op)
      ensures old(ops).Has(op.name) ==> ops.Values() == old(ops.Values())[Position(old(ops.keys), op.name) := op]
      ensures !old(ops).Has(op.name) ==> ops.Values() == old(ops.Values()) + [op]
    {
      SetValues(ops, op.name, op);
      ops := ops.Set(op.name, op);
    }

    /** `remove(name)`: true iff the name was queued; afterwards it is not, and
        the other operations keep their order. */
    method Remove(name: string) returns (removed: bool)
      requires Valid()
      modifies this
      ensures Valid()
      ensures removed == old(ops).Has(name)
      ensures !ops.Has(name)
      ensures removed ==> ops.Values() == old(ops.Values())[..Position(old(ops.keys), name)] +
                                          old(ops.Values())[Position(old(ops.keys), name) + 1..]
      ensures !removed ==> ops == old(ops)
    {
      removed := ops.Has(name);
      if removed {
        DeleteGet(ops, name);
        DeleteValues(ops, name);
      }
      ops := ops.Delete(name);
    }

    /** `getQueue()`: the queued operations, in queue order, each under its own
        name. */
    method GetQueue() returns (q: seq<Op>)
      requires Valid()
      ensures q == ops.Values()
      ensures |q| == ops.Size() && forall i :: 0 <= i < |q| ==> q[i].name == ops.keys[i]
    {
      q := [];
      for i := 0 to |ops.keys|
        invariant q == ops.Values()[..i]
      {
        q := q + [ops.entries[ops.keys[i]]];
      }
    }

    /** `hasOp(name)`: whether some operation of `getQueue()` has that name. */
    method HasOp(name: string) returns (b: bool)
      requires Valid()
      ensures b <==> exists op :: op in ops.Values() && op.name == name
    {
      b := ops.Has(name);
      if b {
        var p := Position(ops.keys, name);
        assert ops.Values()[p].name == name;
      }
    }

    /** `run()`: invokes the queued operations in order and stops at the first
        result that is neither `undefined` nor `true`. */
    method Run(respond: Respond) returns (outcome: RunOutcome, invoked: seq<Op>)
      requires Valid()
      ensures FailFast(ops.Values(), respond, outcome, invoked)
    {
      ghost var q := ops.Values();
      invoked := [];
      var i := 0;
      while i < |ops.keys|
        invariant 0 <= i <= |q|
        invariant invoked == q[..i]
        invariant forall j :: 0 <= j < i ==> respond(j, q[j]).Succeeded()
      {
        var op := ops.entries[ops.keys[i]];
        invoked := invoked + [op];
        var result := respond(i, op);
        if result.Succeeded() {
          i := i + 1;
          continue;
        }
        outcome := Failed(op.name);
        FailureIndexUnique(q, respond, i);
        return;
      }
      outcome := Completed;
      FailureIndexUnique(q, respond, |q|);
    }

    /** `runTask(name)`: `prepare` then `run`, with `prepare`'s result discarded,
        so an unregistered name runs whatever queue was staged before. */
    method RunTask(registry: Registry, name: string, respond: Respond) returns (outcome: RunOutcome, invoked: seq<Op>)
      requires Valid() && registry.Valid()
      modifies this
      ensures Valid()
      ensures registry.tasks.Has(name) ==> ops == Staged(registry.tasks.entries[name].ops)
      ensures !registry.tasks.Has(name) ==> ops == old(ops)
      ensures FailFast(ops.Values(), respond, outcome, invoked)
    {
      var _ := Prepare(registry, name);
      outcome, invoked := Run(respond);
    }
  }

  /** The default of `breakDescription`'s `threshold` parameter. */
  const DefaultThreshold: int := 45

  /** The characters JavaScript's `String.prototype.trim` removes. */
  const Whitespace: set<char> := {
    '\t', '\n', '\U{000B}', '\U{000C}', '\r', ' ', '\U{00A0}', '\U{1680}',
    '\U{2000}', '\U{2001}', '\U{2002}', '\U{2003}', '\U{2004}', '\U{2005}',
    '\U{2006}', '\U{2007}', '\U{2008}', '\U{2009}', '\U{200A}',
    '\U{2028}', '\U{2029}', '\U{202F}', '\U{205F}', '\U{3000}', '\U{FEFF}'
  }

  predicate IsWhitespace(c: char) {
    c in Whitespace
  }

  /** How many whitespace characters `s` starts with. */
  function Leading(s: string): (n: nat)
    ensures n <= |s|
    ensures forall i :: 0 <= i < n ==> IsWhitespace(s[i])
    ensures n < |s| ==> !IsWhitespace(s[n])
    decreases |s|
  {
    if s != [] && IsWhitespace(s[0]) then
      var n := Leading(s[1..]);
      assert forall i :: 1 <= i < n + 1 ==> s[i] == s[1..][i - 1];
      n + 1
    else 0
  }

  /** How many whitespace characters `s` ends with. */
  function Trailing(s: string): (n: nat)
    ensures n <= |s|
    ensures forall i :: |s| - n <= i < |s| ==> IsWhitespace(s[i])
    ensures n < |s| ==> !IsWhitespace(s[|s| - n - 1])
    decreases |s|
  {
    if s != [] && IsWhitespace(s[|s| - 1]) then
      var n := Trailing(s[..|s| - 1]);
      assert forall i :: |s| - n - 1 <= i < |s| - 1 ==> s[i] == s[..|s| - 1][i];
      n + 1
    else 0
  }

  /** `s.trim()`: the part of `s` between its leading and its trailing
      whitespace; nothing when `s` is all whitespace. */
  function Trim(s: string): (r: string)
    ensures Leading(s) + |r| <= |s| && r == s[Leading(s)..Leading(s) + |r|]
    ensures forall i :: 0 <= i < Leading(s) ==> IsWhitespace(s[i])
    ensures forall i :: Leading(s) + |r| <= i < |s| ==> IsWhitespace(s[i])
    ensures r != [] ==> !IsWhitespace(r[0]) && !IsWhitespace(r[|r| - 1])
  {
    if Leading(s) == |s| then "" else s[Leading(s)..|s| - Trailing(s)]
  }

  /** The value of `breakDescription`'s counter after the characters forming
      `segs`: the first line's length, or a later line's length less the
      character that opened it. */
  function Fill(segs: seq<string>): nat
    requires |segs| >= 1
  {
    if |segs| == 1 then |segs[0]|
    else if |segs[|segs| - 1]| > 0 then |segs[|segs| - 1]| - 1
    else 0
  }

  /** The lines `breakDescription` cuts `d` into, for first-line width `w`: a
      character that finds the counter at `w` or more opens a new line. */
  function Segments(d: string, w: nat): (segs: seq<string>)
    ensures |segs| >= 1
    decreases |d|
  {
    if d == [] then [""]
    else
      var segs := Segments(d[..|d| - 1], w);
      var c := d[|d| - 1];
      if Fill(segs) >= w then segs + [[c]]
      else segs[..|segs| - 1] + [segs[|segs| - 1] + [c]]
  }

  /** The lines joined with `brk` between consecutive lines. */
  function Join(segs: seq<string>, brk: string): string
    requires |segs| >= 1
    decreases |segs|
  {
    if |segs| == 1 then segs[0] else Join(segs[..|segs| - 1], brk) + brk + segs[|segs| - 1]
  }

  /** The lines joined with nothing between them. */
  function Concat(segs: seq<string>): string
    decreases |segs|
  {
    if segs == [] then "" else Concat(segs[..|segs| - 1]) + segs[|segs| - 1]
  }

  /** The inserted break: a newline and `SpaceFactory.make(indent)`, that is a
      newline followed by `indent` spaces (none for a negative indent). */
  function Break(indent: int): string {
    "\n" + SpaceFactory.Repeat(" ", SpaceFactory.Count(indent))
  }

  /** The break is a newline followed by `indent` spaces, none for an indent of
      zero or less. */
  lemma BreakShape(indent: int)
    ensures |Break(indent)| == 1 + SpaceFactory.Count(indent) && Break(indent)[0] == '\n'
    ensures forall i :: 1 <= i < |Break(indent)| ==> Break(indent)[i] == ' '
  {
    SpaceFactory.RepeatSingle(' ', SpaceFactory.Count(indent));
  }

  /** Removing the breaks gives back the description: the lines, read in order,
      are exactly its characters. */
  lemma {:induction false} SegmentsConcat(d: string, w: nat)
    ensures Concat(Segments(d, w)) == d
    decreases |d|
  {
    if d != [] {
      var init := d[..|d| - 1];
      var segs := Segments(init, w);
      var c := d[|d| - 1];
      SegmentsConcat(init, w);
      assert d == init + [c];
      if Fill(segs) >= w {
        assert (segs + [[c]])[..|segs|] == segs;
      } else {
        var m := |segs|;
        var segs' := segs[..m - 1] + [segs[m - 1] + [c]];
        assert segs'[..m - 1] == segs[..m - 1];
        assert Concat(segs) == Concat(segs[..m - 1]) + segs[m - 1];
      }
    }
  }

  /** The line lengths of a description of `n` characters cut for width `w`:
      the first line holds `w` characters, or all of a shorter description;
      every later line holds between 1 and `w + 1` characters, and all later
      lines but the last hold exactly `w + 1`; the counter never exceeds `w`,
      and after a break it is the last line's length less its opening
      character. */
  ghost predicate Shaped(segs: seq<string>, n: nat, w: nat) {
    && |segs| >= 1
    && |segs[0]| == (if n < w then n else w)
    && (forall i :: 1 <= i < |segs| ==> 1 <= |segs[i]| <= w + 1)
    && (forall i :: 1 <= i < |segs| - 1 ==> |segs[i]| == w + 1)
    && Fill(segs) <= w
    && (|segs| > 1 ==> |segs[0]| == w && Fill(segs) == |segs[|segs| - 1]| - 1)
  }

  /** A character that finds the counter at `w` opens a line of its own. */
  lemma ShapedBreak(segs: seq<string>, n: nat, w: nat, c: char)
    requires Shaped(segs, n, w) && Fill(segs) >= w
    ensures Shaped(segs + [[c]], n + 1, w)
  {
    var r := segs + [[c]];
    assert r[0] == segs[0];
    assert |segs[0]| == w by {
      if |segs| == 1 {
        assert Fill(segs) == |segs[0]|;
      }
    }
    assert forall i :: 1 <= i < |segs| ==> r[i] == segs[i];
    if |segs| > 1 {
      assert |segs[|segs| - 1]| == w + 1;
    }
  }

  /** A character that finds the counter below `w` extends the last line. */
  lemma ShapedExtend(segs: seq<string>, n: nat, w: nat, c: char)
    requires Shaped(segs, n, w) && Fill(segs) < w
    ensures Shaped(segs[..|segs| - 1] + [segs[|segs| - 1] + [c]], n + 1, w)
  {
    var m := |segs|;
    var r := segs[..m - 1] + [segs[m - 1] + [c]];
    assert forall i :: 0 <= i < m - 1 ==> r[i] == segs[i];
    assert |r[m - 1]| == |segs[m - 1]| + 1;
    if m == 1 {
      assert |segs[0]| == n && n < w;
    }
  }

  /** Every prefix-recursive cut has the shape `Shaped` describes. */
  lemma {:induction false} SegmentsShape(d: string, w: nat)
    ensures Shaped(Segments(d, w), |d|, w)
    decreases |d|
  {
    if d != [] {
      var init := d[..|d| - 1];
      var c := d[|d| - 1];
      var segs := Segments(init, w);
      SegmentsShape(init, w);
      if Fill(segs) >= w {
        ShapedBreak(segs, |init|, w, c);
      } else {
        ShapedExtend(segs, |init|, w, c);
      }
    }
  }

  /** A description no longer than the threshold stays on one line. */
  lemma {:induction false} ShortUnbroken(d: string, w: nat)
    requires |d| <= w
    ensures Segments(d, w) == [d]
    decreases |d|
  {
    if d != [] {
      var init := d[..|d| - 1];
      ShortUnbroken(init, w);
      assert d == init + [d[|d| - 1]];
    }
  }

  /** Appending to the last line appends to the joined text. */
  lemma JoinExtendLast(segs: seq<string>, brk: string, c: char)
    requires |segs| >= 1
    ensures Join(segs[..|segs| - 1] + [segs[|segs| - 1] + [c]], brk) == Join(segs, brk) + [c]
  {
    var m := |segs|;
    var segs' := segs[..m - 1] + [segs[m - 1] + [c]];
    if m > 1 {
      assert segs'[..m - 1] == segs[..m - 1];
    }
  }

  /** `Segments` of one more character, in terms of the shorter prefix. */
  lemma SegmentsUnfold(d: string, i: nat, w: nat)
    requires i < |d|
    ensures Segments(d[..i + 1], w) ==
      var segs := Segments(d[..i], w);
      if Fill(segs) >= w then segs + [[d[i]]] else segs[..|segs| - 1] + [segs[|segs| - 1] + [d[i]]]
  {
    assert d[..i + 1][..i] == d[..i];
    assert d[..i + 1][i] == d[i];
  }

  /** A new line after a break: the joined text gains the break and the
      character, and the counter restarts at zero. */
  lemma StepBreak(segs: seq<string>, c: char, brk: string)
    requires |segs| >= 1
    ensures Join(segs + [[c]], brk) == Join(segs, brk) + brk + [c]
    ensures Fill(segs + [[c]]) == 0
  {
    assert (segs + [[c]])[..|segs|] == segs;
  }

  /** The current line grows: the joined text gains the character, and the
      counter advances when that line is not empty. */
  lemma StepExtend(segs: seq<string>, c: char, brk: string)
    requires |segs| >= 1
    requires |segs| > 1 ==> |segs[|segs| - 1]| >= 1
    ensures Join(segs[..|segs| - 1] + [segs[|segs| - 1] + [c]], brk) == Join(segs, brk) + [c]
    ensures Fill(segs[..|segs| - 1] + [segs[|segs| - 1] + [c]]) == Fill(segs) + 1
  {
    JoinExtendLast(segs, brk, c);
  }

  /** One turn of `breakDescription`'s loop: a character that finds the counter
      at the width opens a new line after a break and resets the counter;
      any other character extends the current line and advances the counter. */
  lemma SegmentsStep(d: string, i: nat, w: nat, brk: string)
    requires i < |d|
    ensures Fill(Segments(d[..i], w)) >= w ==>
      Join(Segments(d[..i + 1], w), brk) == Join(Segments(d[..i], w), brk) + brk + [d[i]] &&
      Fill(Segments(d[..i + 1], w)) == 0
    ensures Fill(Segments(d[..i], w)) < w ==>
      Join(Segments(d[..i + 1], w), brk) == Join(Segments(d[..i], w), brk) + [d[i]] &&
      Fill(Segments(d[..i + 1], w)) == Fill(Segments(d[..i], w)) + 1
  {
    var segs := Segments(d[..i], w);
    SegmentsUnfold(d, i, w);
    if Fill(segs) >= w {
      StepBreak(segs, d[i], brk);
    } else {
      SegmentsShape(d[..i], w);
      StepExtend(segs, d[i], brk);
    }
  }

  /** `breakDescription(opsLength, nameLength, description, threshold)`: the
      description's lines joined by a newline and `nameLength + opsLength + 4`
      spaces, then trimmed. The first line's width is `max(threshold, 0)`: the
      counter is never negative, so a threshold of zero or less breaks before
      every character after the first. */
  method BreakDescription(opsLength: int, nameLength: int, description: string, threshold: int := DefaultThreshold) returns (r: string)
    ensures r == Trim(Join(Segments(description, SpaceFactory.Count(threshold)), Break(nameLength + opsLength + 4)))
    ensures |description| <= threshold ==> r == Trim(description)
  {
    var result := "";
    var counter := 0;
    ghost var w := SpaceFactory.Count(threshold);
    ghost var brk := Break(nameLength + opsLength + 4);
    for i := 0 to |description|
      invariant result == Join(Segments(description[..i], w), brk)
      invariant counter == Fill(Segments(description[..i], w))
    {
      SegmentsStep(description, i, w, brk);
      assert counter >= threshold <==> counter >= w;
      if counter >= threshold {
        var pad := SpaceFactory.Make(nameLength + opsLength + 4, " ");
        result := result + ("\n" + pad);
        counter := 0;
      } else {
        counter := counter + 1;
      }
      result := result + [description[i]];
    }
    assert description[..|description|] == description;
    if |description| <= threshold {
      ShortUnbroken(description, w);
    }
    r := Trim(result);
  }
}
