/**
 * Resynchronising scanners for fixed-width windows.  Each position of a stream
 * is classified: wait for more input, skip one element, or take a whole window
 * and what it carries.  This module is about the classified stream alone.
 */
module WindowScan {

  datatype Step<+F> = Wait | Skip | Take(frame: F)

  /** A window is only taken when it is all there, and only its absence makes the scanner wait. */
  ghost predicate Sound<F>(steps: seq<Step<F>>, width: nat) {
    && width > 0
    && (forall i :: 0 <= i < |steps| && steps[i].Take? ==> i + width <= |steps|)
    && (forall i :: 0 <= i < |steps| && steps[i].Wait? ==> |steps| < i + width)
  }

  /** More input settles positions that waited and no others. */
  ghost predicate Extends<F>(steps: seq<Step<F>>, longer: seq<Step<F>>) {
    && |steps| <= |longer|
    && (forall i :: 0 <= i < |steps| && !steps[i].Wait? ==> longer[i] == steps[i])
  }

  // ---------------------------------------------------------------- the declarative meaning

  /**
   * The greedy leftmost choice of non-overlapping windows, said without
   * scanning: every window that could be taken is chosen, or begins inside a
   * chosen one that starts before it.
   */
  ghost predicate Greedy<F>(steps: seq<Step<F>>, width: nat, starts: seq<int>) {
    && (forall k :: 0 <= k < |starts| ==> 0 <= starts[k] < |steps| && steps[starts[k]].Take?)
    && (forall j, k :: 0 <= j < k < |starts| ==> starts[j] + width <= starts[k])
    && (forall i {:trigger Claimed(starts, width, i)} ::
          0 <= i < |steps| && steps[i].Take? ==> Claimed(starts, width, i))
  }

  ghost predicate Claimed(starts: seq<int>, width: nat, at: int) {
    exists k :: 0 <= k < |starts| && starts[k] <= at < starts[k] + width
  }

  lemma Claimer(starts: seq<int>, width: nat, at: int) returns (k: int)
    requires Claimed(starts, width, at)
    ensures 0 <= k < |starts| && starts[k] <= at < starts[k] + width
  {
    k :| 0 <= k < |starts| && starts[k] <= at < starts[k] + width;
  }

  lemma {:induction false} GreedyAgreesAt<F>(steps: seq<Step<F>>, width: nat, p: seq<int>, q: seq<int>, k: nat)
    requires Greedy(steps, width, p) && Greedy(steps, width, q)
    requires k < |p| && k <= |q| && p[..k] == q[..k]
    ensures k < |q| && q[k] <= p[k]
  {
    var m := Claimer(q, width, p[k]);
    assert forall j :: 0 <= j < k ==> q[j] == q[..k][j] == p[..k][j] == p[j];
    assert k <= m;
  }

  lemma {:induction false} GreedyPrefix<F>(steps: seq<Step<F>>, width: nat, p: seq<int>, q: seq<int>, k: nat)
    requires Greedy(steps, width, p) && Greedy(steps, width, q) && k <= |p|
    ensures k <= |q| && p[..k] == q[..k]
    decreases k
  {
    if k > 0 {
      GreedyPrefix(steps, width, p, q, k - 1);
      GreedyAgreesAt(steps, width, p, q, k - 1);
      GreedyAgreesAt(steps, width, q, p, k - 1);
      assert p[..k] == p[..k - 1] + [p[k - 1]] && q[..k] == q[..k - 1] + [q[k - 1]];
    }
  }

  /** The greedy choice is determined by the stream alone. */
  lemma GreedyUnique<F>(steps: seq<Step<F>>, width: nat, p: seq<int>, q: seq<int>)
    requires Greedy(steps, width, p) && Greedy(steps, width, q)
    ensures p == q
  {
    GreedyPrefix(steps, width, p, q, |p|);
    GreedyPrefix(steps, width, q, p, |q|);
  }

  // ---------------------------------------------------------------- the scanning loop

  datatype Scanned<+F> = Scanned(starts: seq<int>, frames: seq<F>, stop: int)

  /** Where the loop goes from `cursor`, and where it stops to wait for more input. */
  ghost function Scan<F>(steps: seq<Step<F>>, width: nat, cursor: int): (r: Scanned<F>)
    requires Sound(steps, width) && 0 <= cursor <= |steps|
    ensures cursor <= r.stop <= |steps| < r.stop + width
    ensures |r.starts| == |r.frames|
    decreases |steps| - cursor
  {
    if cursor == |steps| || steps[cursor].Wait? then Scanned([], [], cursor)
    else if steps[cursor].Skip? then Scan(steps, width, cursor + 1)
    else
      var r := Scan(steps, width, cursor + width);
      Scanned([cursor] + r.starts, [steps[cursor].frame] + r.frames, r.stop)
  }

  ghost predicate TakenFrom<F>(steps: seq<Step<F>>, width: nat, cursor: int, starts: seq<int>, frames: seq<F>) {
    && |starts| == |frames|
    && (forall k :: 0 <= k < |starts| ==>
          cursor <= starts[k] && 0 <= starts[k] < |steps| && steps[starts[k]] == Take(frames[k]))
    && (forall j, k :: 0 <= j < k < |starts| ==> starts[j] + width <= starts[k])
  }

  lemma TakeOneMore<F>(steps: seq<Step<F>>, width: nat, cursor: int, starts: seq<int>, frames: seq<F>)
    requires 0 <= cursor < |steps| && steps[cursor].Take?
    requires TakenFrom(steps, width, cursor + width, starts, frames)
    ensures TakenFrom(steps, width, cursor, [cursor] + starts, [steps[cursor].frame] + frames)
  {
    var starts', frames' := [cursor] + starts, [steps[cursor].frame] + frames;
    assert forall k :: 1 <= k < |starts'| ==> starts'[k] == starts[k - 1] && frames'[k] == frames[k - 1];
  }

  lemma {:induction false} ScanTakes<F>(steps: seq<Step<F>>, width: nat, cursor: int)
    requires Sound(steps, width) && 0 <= cursor <= |steps|
    ensures var r := Scan(steps, width, cursor); TakenFrom(steps, width, cursor, r.starts, r.frames)
    decreases |steps| - cursor
  {
    if cursor == |steps| || steps[cursor].Wait? {
    } else if steps[cursor].Skip? {
      ScanTakes(steps, width, cursor + 1);
    } else {
      ScanTakes(steps, width, cursor + width);
      var rest := Scan(steps, width, cursor + width);
      TakeOneMore(steps, width, cursor, rest.starts, rest.frames);
    }
  }

  lemma {:induction false} ScanClaims<F>(steps: seq<Step<F>>, width: nat, cursor: int, at: int)
    requires Sound(steps, width) && 0 <= cursor <= at < |steps| && steps[at].Take?
    ensures Claimed(Scan(steps, width, cursor).starts, width, at)
    decreases |steps| - cursor
  {
    var r := Scan(steps, width, cursor);
    if steps[cursor].Skip? {
      ScanClaims(steps, width, cursor + 1, at);
    } else if at < cursor + width {
      assert r.starts[0] == cursor;
    } else {
      var rest := Scan(steps, width, cursor + width).starts;
      ScanClaims(steps, width, cursor + width, at);
      var k := Claimer(rest, width, at);
      assert r.starts[k + 1] == rest[k];
    }
  }

  /** The loop finds the greedy choice. */
  lemma ScanIsGreedy<F>(steps: seq<Step<F>>, width: nat)
    requires Sound(steps, width)
    ensures Greedy(steps, width, Scan(steps, width, 0).starts)
  {
    ScanTakes(steps, width, 0);
    forall i | 0 <= i < |steps| && steps[i].Take? ensures Claimed(Scan(steps, width, 0).starts, width, i) {
      ScanClaims(steps, width, 0, i);
    }
  }

  /** Input that arrives later never changes what was already decided. */
  lemma {:induction false} ScanExtends<F>(steps: seq<Step<F>>, longer: seq<Step<F>>, width: nat, cursor: int)
    requires Sound(steps, width) && Sound(longer, width) && Extends(steps, longer)
    requires 0 <= cursor <= |steps|
    ensures var first := Scan(steps, width, cursor);
            var second := Scan(longer, width, first.stop);
            var whole := Scan(longer, width, cursor);
            whole.frames == first.frames + second.frames && whole.stop == second.stop
    decreases |steps| - cursor
  {
    if cursor == |steps| || steps[cursor].Wait? {
    } else if steps[cursor].Skip? {
      ScanExtends(steps, longer, width, cursor + 1);
    } else {
      ScanExtends(steps, longer, width, cursor + width);
      var first := Scan(steps, width, cursor + width);
      var second := Scan(longer, width, first.stop);
      var head := [steps[cursor].frame];
      assert head + (first.frames + second.frames) == (head + first.frames) + second.frames;
    }
  }

  /** Scanning a suffix is scanning the whole from where the suffix begins. */
  lemma {:induction false} ScanSuffix<F>(steps: seq<Step<F>>, width: nat, from: int, cursor: int)
    requires 0 <= from <= from + cursor <= |steps| && 0 <= cursor
    requires Sound(steps, width) && Sound(steps[from..], width)
    ensures var inner := Scan(steps[from..], width, cursor);
            var outer := Scan(steps, width, from + cursor);
            outer.frames == inner.frames && outer.stop == from + inner.stop
    decreases |steps| - cursor
  {
    if from + cursor == |steps| || steps[from + cursor].Wait? {
    } else if steps[from + cursor].Skip? {
      ScanSuffix(steps, width, from, cursor + 1);
    } else {
      ScanSuffix(steps, width, from, cursor + width);
    }
  }

  /** Nothing can be taken before `target`, so the scan gets there. */
  lemma {:induction false} ScanReaches<F>(steps: seq<Step<F>>, width: nat, cursor: int, target: int)
    requires Sound(steps, width) && 0 <= cursor <= target < |steps| && steps[target].Take?
    requires forall i :: cursor <= i < target ==> !steps[i].Take?
    ensures Scan(steps, width, cursor) == Scan(steps, width, target)
    decreases target - cursor
  {
    if cursor < target {
      ScanReaches(steps, width, cursor + 1, target);
    }
  }
}
