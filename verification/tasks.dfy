/**
 The task collection of the to-do screen and the two updaters that rewrite it
 entry by entry: completing/uncompleting (a `map` over the collection) and
 removing (a `filter`). Ids are compared with JavaScript's `===` on strings,
 which is value equality. Ids need not be unique, so both updaters act on
 EVERY entry carrying the id.
 */
module Tasks {

  /** One to-do entry as it is stored: `{id, text, completed}`. */
  datatype Task = Task(id: string, text: string, completed: bool)

  /** Some entry of `tasks` carries `id`. */
  predicate HasId(tasks: seq<Task>, id: string) {
    exists i :: 0 <= i < |tasks| && tasks[i].id == id
  }

  /** Number of entries of `tasks` carrying `id`. */
  function Count(tasks: seq<Task>, id: string): (n: nat)
    ensures n <= |tasks|
    ensures n == 0 <==> !HasId(tasks, id)
  {
    if |tasks| == 0 then 0
    else Count(tasks[..|tasks| - 1], id) + (if tasks[|tasks| - 1].id == id then 1 else 0)
  }

  /** `t` with its completion flag flipped when it carries `id`. */
  function Flip(t: Task, id: string): Task {
    if t.id == id then t.(completed := !t.completed) else t
  }

  /** The collection after pressing the text of an entry with id `id`. */
  function Toggle(tasks: seq<Task>, id: string): (r: seq<Task>)
    ensures |r| == |tasks|
    ensures forall i :: 0 <= i < |r| ==>
              && r[i].id == tasks[i].id
              && r[i].text == tasks[i].text
              && (r[i].completed <==> (tasks[i].completed != (tasks[i].id == id)))
  {
    if |tasks| == 0 then []
    else [Flip(tasks[0], id)] + Toggle(tasks[1..], id)
  }

  /** The positions of `tasks` NOT carrying `id`, in increasing order: the
      entries a removal keeps. */
  function Kept(tasks: seq<Task>, id: string): (ks: seq<nat>)
    ensures forall k :: 0 <= k < |ks| ==> ks[k] < |tasks| && tasks[ks[k]].id != id
    ensures forall k, l :: 0 <= k < l < |ks| ==> ks[k] < ks[l]
    ensures forall i :: 0 <= i < |tasks| && tasks[i].id != id ==> i in ks
  {
    if |tasks| == 0 then []
    else
      var n := |tasks| - 1;
      Kept(tasks[..n], id) + (if tasks[n].id != id then [n] else [])
  }

  /** The collection after a confirmed deletion of `id`: every entry carrying
      `id` is dropped. */
  function Remove(tasks: seq<Task>, id: string): (r: seq<Task>)
    ensures forall i :: 0 <= i < |r| ==> r[i].id != id
    ensures |r| == |tasks| - Count(tasks, id)
    ensures forall t :: t in r ==> t in tasks
  {
    if |tasks| == 0 then []
    else
      var n := |tasks| - 1;
      Remove(tasks[..n], id) + (if tasks[n].id != id then [tasks[n]] else [])
  }

  /** Toggling the same id twice restores the collection. */
  lemma ToggleInvolution(tasks: seq<Task>, id: string)
    ensures Toggle(Toggle(tasks, id), id) == tasks
  {
    var r := Toggle(Toggle(tasks, id), id);
    assert forall i :: 0 <= i < |tasks| ==> r[i] == tasks[i];
  }

  /** Toggling an id nobody carries changes nothing. */
  lemma ToggleAbsent(tasks: seq<Task>, id: string)
    requires !HasId(tasks, id)
    ensures Toggle(tasks, id) == tasks
  {
    var r := Toggle(tasks, id);
    assert forall i :: 0 <= i < |tasks| ==> r[i] == tasks[i];
  }

  /** Toggles of two ids commute. */
  lemma ToggleCommutes(tasks: seq<Task>, a: string, b: string)
    ensures Toggle(Toggle(tasks, a), b) == Toggle(Toggle(tasks, b), a)
  {
    var ab := Toggle(Toggle(tasks, a), b);
    var ba := Toggle(Toggle(tasks, b), a);
    assert forall i :: 0 <= i < |tasks| ==> ab[i] == ba[i];
  }

  /** A removal keeps exactly the entries not carrying `id`, in their
      original relative order: its k-th entry is the input's entry at the
      k-th kept position. */
  lemma {:induction false} RemoveSelectsKept(tasks: seq<Task>, id: string)
    ensures |Remove(tasks, id)| == |Kept(tasks, id)|
    ensures forall k :: 0 <= k < |Kept(tasks, id)| ==>
              Remove(tasks, id)[k] == tasks[Kept(tasks, id)[k]]
  {
    RemoveKeptLength(tasks, id);
    forall k | 0 <= k < |Kept(tasks, id)|
      ensures Remove(tasks, id)[k] == tasks[Kept(tasks, id)[k]]
    {
      RemoveAt(tasks, id, k);
    }
  }

  /** A removal is as long as its list of kept positions. */
  lemma {:induction false} RemoveKeptLength(tasks: seq<Task>, id: string)
    ensures |Remove(tasks, id)| == |Kept(tasks, id)|
  {
    if |tasks| > 0 {
      RemoveKeptLength(tasks[..|tasks| - 1], id);
    }
  }

  /** The k-th entry of a removal is the entry at the k-th kept position. */
  lemma {:induction false} RemoveAt(tasks: seq<Task>, id: string, k: nat)
    requires k < |Kept(tasks, id)|
    ensures k < |Remove(tasks, id)| && Remove(tasks, id)[k] == tasks[Kept(tasks, id)[k]]
  {
    RemoveKeptLength(tasks, id);
    var n := |tasks| - 1;
    var front := tasks[..n];
    var rf, kf := Remove(front, id), Kept(front, id);
    assert Remove(tasks, id) == rf + (if tasks[n].id != id then [tasks[n]] else []);
    assert Kept(tasks, id) == kf + (if tasks[n].id != id then [n] else []);
    if k < |kf| {
      RemoveAt(front, id, k);
      assert Remove(tasks, id)[k] == rf[k];
    }
  }

  /** The number of entries carrying `id` is the number a removal drops. */
  lemma CountIsDropped(tasks: seq<Task>, id: string)
    ensures Count(tasks, id) == |tasks| - |Kept(tasks, id)|
  {
    RemoveSelectsKept(tasks, id);
  }

  /** Removing an id nobody carries changes nothing. */
  lemma {:induction false} RemoveAbsent(tasks: seq<Task>, id: string)
    requires !HasId(tasks, id)
    ensures Remove(tasks, id) == tasks
  {
    if |tasks| > 0 {
      var n := |tasks| - 1;
      RemoveAbsent(tasks[..n], id);
      assert tasks == tasks[..n] + [tasks[n]];
    }
  }

  /** A second removal of the same id changes nothing. */
  lemma RemoveIdempotent(tasks: seq<Task>, id: string)
    ensures Remove(Remove(tasks, id), id) == Remove(tasks, id)
  {
    RemoveAbsent(Remove(tasks, id), id);
  }

  /** Completing an entry and then deleting it leaves the same collection as
      deleting it straight away. */
  lemma {:induction false} RemoveAfterToggle(tasks: seq<Task>, id: string)
    ensures Remove(Toggle(tasks, id), id) == Remove(tasks, id)
  {
    if |tasks| > 0 {
      var n := |tasks| - 1;
      var toggled := Toggle(tasks, id);
      assert toggled[..n] == Toggle(tasks[..n], id) by {
        var front := Toggle(tasks[..n], id);
        assert forall i :: 0 <= i < n ==> toggled[..n][i] == front[i];
      }
      RemoveAfterToggle(tasks[..n], id);
    }
  }
}
