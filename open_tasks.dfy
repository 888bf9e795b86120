/**
 * The drag-and-drop reorder of the open-task list: a task dragged from one
 * position and dropped at another.
 */
module OpenTasks {
  import opened TaskTypes

  /** `a.splice(i, 1)` with i in range: the element at i is taken out. */
  function SpliceOut<T>(s: seq<T>, i: nat): (r: seq<T>)
    requires i < |s|
    ensures |r| == |s| - 1
    ensures forall j :: 0 <= j < i ==> r[j] == s[j]
    ensures forall j :: i <= j < |r| ==> r[j] == s[j + 1]
    ensures multiset(r) + multiset{s[i]} == multiset(s)
  {
    assert s == s[..i] + [s[i]] + s[i + 1..];
    s[..i] + s[i + 1..]
  }

  /** `a.splice(i, 0, x)` with i in range: x is put in at i. */
  function SpliceIn<T>(s: seq<T>, i: nat, x: T): (r: seq<T>)
    requires i <= |s|
    ensures |r| == |s| + 1
    ensures r[i] == x
    ensures forall j :: 0 <= j < i ==> r[j] == s[j]
    ensures forall j :: i <= j < |s| ==> r[j + 1] == s[j]
    ensures multiset(r) == multiset(s) + multiset{x}
  {
    assert s == s[..i] + s[i..];
    s[..i] + [x] + s[i..]
  }

  /**
   * The list after moving the element at `from` to `to`, position by position:
   * the destination holds the moved element, the elements strictly between the
   * two positions and the destination shift one step toward the source, and
   * every other element keeps its position.
   */
  function Moved<T>(s: seq<T>, from: nat, to: nat): (r: seq<T>)
    requires from < |s| && to < |s|
    ensures |r| == |s| && r[to] == s[from]
  {
    seq(|s|, i requires 0 <= i < |s| =>
      if i == to then s[from]
      else if from < to && from <= i < to then s[i + 1]
      else if to < from && to < i <= from then s[i - 1]
      else s[i])
  }

  /** Taking the element out at `from` and putting it back in at `to` is the move. */
  lemma MovedBySplices<T>(s: seq<T>, from: nat, to: nat)
    requires from < |s| && to < |s|
    ensures Moved(s, from, to) == SpliceIn(SpliceOut(s, from), to, s[from])
  {
    var rest := SpliceOut(s, from);
    var r := SpliceIn(rest, to, s[from]);
    var m := Moved(s, from, to);
    forall i | 0 <= i < |s| ensures m[i] == r[i] {
      if i < to {
        assert r[i] == rest[i];
        if i < from { assert rest[i] == s[i]; } else { assert rest[i] == s[i + 1]; }
      } else if i > to {
        assert r[i] == rest[i - 1];
        if i - 1 < from { assert rest[i - 1] == s[i - 1]; } else { assert rest[i - 1] == s[i]; }
      }
    }
  }

  /** Moving is a permutation: same length and the same elements. */
  lemma MovedIsPermutation<T>(s: seq<T>, from: nat, to: nat)
    requires from < |s| && to < |s|
    ensures |Moved(s, from, to)| == |s|
    ensures multiset(Moved(s, from, to)) == multiset(s)
  {
    MovedBySplices(s, from, to);
  }

  /** Dropping an element where it was picked up leaves the list as it was. */
  lemma MovedInPlace<T>(s: seq<T>, i: nat)
    requires i < |s|
    ensures Moved(s, i, i) == s
  {
  }

  /** Dragging the element back from the destination to the source undoes the move. */
  lemma MovedBack<T>(s: seq<T>, from: nat, to: nat)
    requires from < |s| && to < |s|
    ensures Moved(Moved(s, from, to), to, from) == s
  {
  }

  /** A move keeps every element an open task when all of them were. */
  lemma MovedKeepsOpen(tasks: seq<Task>, from: nat, to: nat)
    requires from < |tasks| && to < |tasks| && AllOpen(tasks)
    ensures AllOpen(Moved(tasks, from, to))
  {
  }

  /**
   * handleDragEnd: no destination means no reorder. Otherwise the list is
   * copied, the dragged task is spliced out at the source index and spliced in
   * at the destination index, and the result is what the task at the source
   * moved to the destination gives.
   */
  method HandleDragEnd(tasks: seq<Task>, source: nat, destination: Option<nat>)
    returns (reordered: Option<seq<Task>>)
    requires destination.Some? ==> source < |tasks| && destination.value < |tasks|
    ensures destination.None? <==> reordered.None?
    ensures destination.Some? ==> reordered == Some(Moved(tasks, source, destination.value))
  {
    if destination.None? {
      return None;
    }
    var newTasks := tasks;
    var reorderedItem := newTasks[source];
    newTasks := SpliceOut(newTasks, source);
    newTasks := SpliceIn(newTasks, destination.value, reorderedItem);
    MovedBySplices(tasks, source, destination.value);
    reordered := Some(newTasks);
  }
}
