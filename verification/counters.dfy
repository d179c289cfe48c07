/** The counter list kept by the application shell: creating, deleting,
    patching and reordering counters, merging an imported list, and picking
    out the widgets shown on the home view. Every operation returns the new
    list instead of handing it to a state setter. */
module Counters {
  import opened Wrappers
  import opened Seqs
  import opened Display

  datatype Counter = Counter(
    id: string,
    name: string,
    startDate: string,
    createdAt: string,
    color: string,
    backgroundImage: Option<string>,
    displayFormat: DisplayFormat,
    isWidget: bool)

  /** A partial counter, as spread over an existing one: `None` leaves the
      field alone. `backgroundImage` is the one optional field, so a patch can
      also set it to absent (`Some(None)`). */
  datatype Patch = Patch(
    id: Option<string>,
    name: Option<string>,
    startDate: Option<string>,
    createdAt: Option<string>,
    color: Option<string>,
    backgroundImage: Option<Option<string>>,
    displayFormat: Option<DisplayFormat>,
    isWidget: Option<bool>)

  const NoChange := Patch(None, None, None, None, None, None, None, None)

  /** `{ ...c, ...p }`: each field the patch carries replaces the counter's. */
  function Apply(c: Counter, p: Patch): Counter {
    Counter(
      p.id.GetOr(c.id),
      p.name.GetOr(c.name),
      p.startDate.GetOr(c.startDate),
      p.createdAt.GetOr(c.createdAt),
      p.color.GetOr(c.color),
      p.backgroundImage.GetOr(c.backgroundImage),
      p.displayFormat.GetOr(c.displayFormat),
      p.isWidget.GetOr(c.isWidget))
  }

  /** Spreading the same patch twice is spreading it once, and the empty
      patch changes nothing. */
  lemma ApplyIdempotent(c: Counter, p: Patch)
    ensures Apply(Apply(c, p), p) == Apply(c, p)
    ensures Apply(c, NoChange) == c
  {
  }

  /** Whether some counter of `cs` carries `id` (`cs.find(c => c.id === id)`
      finding an element). */
  predicate HasId(cs: seq<Counter>, id: string) {
    exists c :: c in cs && c.id == id
  }

  /** `findIndex(c => c.id === id)`: the first position holding `id`, or -1. */
  function IndexOf(cs: seq<Counter>, id: string): (r: int)
    ensures -1 <= r < |cs|
    ensures r == -1 <==> !HasId(cs, id)
    ensures r >= 0 ==> cs[r].id == id && forall k :: 0 <= k < r ==> cs[k].id != id
  {
    if |cs| == 0 then -1
    else if cs[0].id == id then 0
    else
      var k := IndexOf(cs[1..], id);
      assert forall c :: c in cs <==> c == cs[0] || c in cs[1..];
      if k == -1 then -1 else k + 1
  }

  // ---------------------------------------------------------------------------
  // Adding, deleting and updating
  // ---------------------------------------------------------------------------

  /** The counter `addCounter` builds. The identifier and the creation
      timestamp come from outside (a random UUID and the clock). */
  function NewCounter(id: string, createdAt: string, name: string, startDate: string,
                      color: string, format: DisplayFormat, asWidget: bool,
                      bgImage: Option<string>): Counter
  {
    Counter(id, name, startDate, createdAt, color, bgImage, format, asWidget)
  }

  /** `[newCounter, ...counters]`: the new counter goes in front. */
  function Add(cs: seq<Counter>, c: Counter): (r: seq<Counter>)
    ensures |r| == |cs| + 1
    ensures r[0] == c && r[1..] == cs
    ensures forall x :: x in r <==> x == c || x in cs
  {
    [c] + cs
  }

  function IdIsNot(id: string): Counter -> bool {
    (c: Counter) => c.id != id
  }

  /** `counters.filter(c => c.id !== id)`: every counter carrying `id` goes,
      the rest keep their order. */
  function Delete(cs: seq<Counter>, id: string): (r: seq<Counter>)
    ensures !HasId(r, id)
    ensures forall x :: x in r <==> x in cs && x.id != id
    ensures IsSubsequence(r, cs)
    ensures forall x: Counter :: x.id != id ==> multiset(r)[x] == multiset(cs)[x]
  {
    Filter(cs, IdIsNot(id))
  }

  /** Deleting what is not there changes nothing, deleting twice is deleting
      once, and deleting a counter just added under a fresh id undoes the add. */
  lemma DeleteAbsent(cs: seq<Counter>, id: string)
    requires !HasId(cs, id)
    ensures Delete(cs, id) == cs
  {
    FilterAll(cs, IdIsNot(id));
  }

  lemma DeleteIdempotent(cs: seq<Counter>, id: string)
    ensures Delete(Delete(cs, id), id) == Delete(cs, id)
  {
    FilterIdempotent(cs, IdIsNot(id));
  }

  lemma AddThenDelete(cs: seq<Counter>, c: Counter)
    requires !HasId(cs, c.id)
    ensures Delete(Add(cs, c), c.id) == cs
  {
    assert Add(cs, c) == [c] + cs;
    FilterAppend([c], cs, IdIsNot(c.id));
    DeleteAbsent(cs, c.id);
  }

  /** `addCounter(name, startDate, color, format, asWidget, bgImage)`, given
      the identifier and creation timestamp it draws from outside: a counter
      carrying exactly those fields goes in front, and deleting it again by
      a fresh identifier gives back the old list. */
  function AddCounter(cs: seq<Counter>, id: string, createdAt: string, name: string,
                      startDate: string, color: string, format: DisplayFormat,
                      asWidget: bool, bgImage: Option<string>): (r: seq<Counter>)
    ensures |r| == |cs| + 1 && r[1..] == cs
    ensures r[0].id == id && r[0].createdAt == createdAt
    ensures r[0].name == name && r[0].startDate == startDate && r[0].color == color
    ensures r[0].backgroundImage == bgImage
    ensures r[0].displayFormat == format && r[0].isWidget == asWidget
    ensures !HasId(cs, id) ==> Delete(r, id) == cs
  {
    var c := NewCounter(id, createdAt, name, startDate, color, format, asWidget, bgImage);
    if HasId(cs, id) then Add(cs, c)
    else AddThenDelete(cs, c); Add(cs, c)
  }

  /** `counters.map(c => c.id === id ? { ...c, ...updates } : c)`. */
  function Update(cs: seq<Counter>, id: string, p: Patch): (r: seq<Counter>)
    ensures |r| == |cs|
    ensures forall i :: 0 <= i < |cs| && cs[i].id == id ==> r[i] == Apply(cs[i], p)
    ensures forall i :: 0 <= i < |cs| && cs[i].id != id ==> r[i] == cs[i]
  {
    if |cs| == 0 then []
    else [if cs[0].id == id then Apply(cs[0], p) else cs[0]] + Update(cs[1..], id, p)
  }

  /** Updating is idempotent, an update for an absent id or with an empty
      patch changes nothing, and an update that keeps the id commutes with
      deletion of that id (both leave the same list). */
  lemma UpdateIdempotent(cs: seq<Counter>, id: string, p: Patch)
    ensures Update(Update(cs, id, p), id, p) == Update(cs, id, p)
  {
    var r := Update(cs, id, p);
    forall i | 0 <= i < |cs|
      ensures Update(r, id, p)[i] == r[i]
    {
      ApplyIdempotent(cs[i], p);
    }
  }

  lemma UpdateAbsent(cs: seq<Counter>, id: string, p: Patch)
    requires !HasId(cs, id)
    ensures Update(cs, id, p) == cs
  {
    assert forall i :: 0 <= i < |cs| ==> cs[i] in cs;
  }

  lemma UpdateNoChange(cs: seq<Counter>, id: string)
    ensures Update(cs, id, NoChange) == cs
  {
  }

  lemma {:induction false} DeleteAfterUpdate(cs: seq<Counter>, id: string, p: Patch)
    requires p.id == None || p.id == Some(id)
    ensures Delete(Update(cs, id, p), id) == Delete(cs, id)
  {
    if |cs| > 0 {
      var head := if cs[0].id == id then Apply(cs[0], p) else cs[0];
      assert Update(cs, id, p) == [head] + Update(cs[1..], id, p);
      assert cs == [cs[0]] + cs[1..];
      FilterAppend([head], Update(cs[1..], id, p), IdIsNot(id));
      FilterAppend([cs[0]], cs[1..], IdIsNot(id));
      DeleteAfterUpdate(cs[1..], id, p);
    }
  }

  // ---------------------------------------------------------------------------
  // Drag and drop
  // ---------------------------------------------------------------------------

  /** The list together with the id of the counter being dragged. */
  datatype DragState = DragState(counters: seq<Counter>, dragged: Option<string>)

  /** `handleDrop(targetId)`. With nothing being dragged (absent or the empty
      string) or a drop onto the dragged counter itself, nothing happens, not
      even the drag reset. Otherwise the first counter with the dragged id is
      moved to the position the first counter with the target id held, when
      both exist, and the drag is reset either way. */
  function Drop(cs: seq<Counter>, dragged: Option<string>, target: string): (r: DragState)
    ensures dragged == None || dragged == Some("") || dragged == Some(target)
        ==> r == DragState(cs, dragged)
    ensures dragged != None && dragged != Some("") && dragged != Some(target)
        ==> r.dragged == None
    ensures multiset(r.counters) == multiset(cs)
  {
    if dragged.None? || dragged.value == "" || dragged.value == target then
      DragState(cs, dragged)
    else
      var di := IndexOf(cs, dragged.value);
      var ti := IndexOf(cs, target);
      if di != -1 && ti != -1 then DragState(Move(cs, di, ti), None)
      else DragState(cs, None)
  }

  /** A drop where either id is missing leaves the list as it was. */
  lemma DropMissing(cs: seq<Counter>, d: string, target: string)
    requires d != "" && d != target
    requires !HasId(cs, d) || !HasId(cs, target)
    ensures Drop(cs, Some(d), target) == DragState(cs, None)
  {
  }

  /** A drop where both ids are present puts the dragged counter at the
      target's old index: just after the target when it came from above, just
      before it when it came from below. Removing the dragged counter from
      both lists gives the same list, so every other counter keeps its
      relative order. */
  lemma DropMoves(cs: seq<Counter>, d: string, target: string)
    requires d != "" && d != target
    requires HasId(cs, d) && HasId(cs, target)
    ensures var di := IndexOf(cs, d);
            var ti := IndexOf(cs, target);
            var r := Drop(cs, Some(d), target).counters;
            && 0 <= di < |cs| && 0 <= ti < |cs| && di != ti
            && |r| == |cs|
            && r[ti] == cs[di] && r[ti].id == d
            && RemoveAt(r, ti) == RemoveAt(cs, di)
            && (di < ti ==> r[ti - 1] == cs[ti])
            && (ti < di ==> r[ti + 1] == cs[ti])
  {
  }

  // ---------------------------------------------------------------------------
  // Import and widgets
  // ---------------------------------------------------------------------------

  function NotImported(imported: seq<Counter>): Counter -> bool {
    (c: Counter) => !HasId(imported, c.id)
  }

  /** `[...imported, ...counters.filter(c => !imported.find(i => i.id === c.id))]`:
      the imported counters first, in their order, then the existing counters
      whose id the import does not mention. */
  function ImportMerge(cs: seq<Counter>, imported: seq<Counter>): (r: seq<Counter>)
    ensures |imported| <= |r| <= |imported| + |cs|
    ensures r[..|imported|] == imported
    ensures forall x :: x in r[|imported|..] <==> x in cs && !HasId(imported, x.id)
    ensures IsSubsequence(r[|imported|..], cs)
    ensures forall x: Counter :: multiset(r[|imported|..])[x]
                              == if HasId(imported, x.id) then 0 else multiset(cs)[x]
    ensures forall id :: HasId(r, id) <==> HasId(imported, id) || HasId(cs, id)
  {
    var kept := Filter(cs, NotImported(imported));
    var r := imported + kept;
    assert r[..|imported|] == imported && r[|imported|..] == kept;
    assert forall x :: x in r <==> x in imported || x in kept;
    r
  }

  /** Importing the same list twice is importing it once; importing nothing
      keeps the list; importing into an empty list gives the import. */
  lemma ImportIdempotent(cs: seq<Counter>, imported: seq<Counter>)
    ensures ImportMerge(ImportMerge(cs, imported), imported) == ImportMerge(cs, imported)
  {
    var q := NotImported(imported);
    var kept := Filter(cs, q);
    assert ImportMerge(cs, imported) == imported + kept;
    assert Filter(imported + kept, q) == kept by {
      FilterAppend(imported, kept, q);
      ImportedNotKept(imported);
      FilterIdempotent(cs, q);
    }
  }

  lemma ImportedNotKept(imported: seq<Counter>)
    ensures Filter(imported, NotImported(imported)) == []
  {
    assert forall i :: 0 <= i < |imported| ==> imported[i] in imported;
    FilterNone(imported, NotImported(imported));
  }

  lemma ImportNothing(cs: seq<Counter>)
    ensures ImportMerge(cs, []) == cs
  {
    FilterAll(cs, NotImported([]));
  }

  lemma ImportIntoEmpty(imported: seq<Counter>)
    ensures ImportMerge([], imported) == imported
  {
  }

  predicate IsWidget(c: Counter) {
    c.isWidget
  }

  /** `counters.filter(c => c.isWidget)`. */
  function Widgets(cs: seq<Counter>): (r: seq<Counter>)
    ensures forall x :: x in r <==> x in cs && x.isWidget
    ensures IsSubsequence(r, cs)
    ensures forall x: Counter :: x.isWidget ==> multiset(r)[x] == multiset(cs)[x]
  {
    Filter(cs, IsWidget)
  }

  /** A new counter shows up first among the widgets exactly when it is
      added as one; deleting and then picking widgets is picking widgets and
      then deleting. */
  lemma WidgetsOfAdd(cs: seq<Counter>, c: Counter)
    ensures Widgets(Add(cs, c)) == if c.isWidget then [c] + Widgets(cs) else Widgets(cs)
  {
    FilterAppend([c], cs, IsWidget);
  }

  lemma WidgetsOfDelete(cs: seq<Counter>, id: string)
    ensures Widgets(Delete(cs, id)) == Delete(Widgets(cs), id)
  {
    FilterCommute(cs, IdIsNot(id), IsWidget);
  }
}
