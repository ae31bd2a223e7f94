/**
 * The shared part-selection state: an ordered list of selected parts whose
 * capacity depends on the difficulty level, toggled part by part.
 */
module SelectedPart {
  import opened Wrappers
  import opened Builtins

  /** A selectable part, as the selection sees it. */
  datatype Part = Part(id: string, name: string, description: string, iconSrc: string, tags: Option<seq<string>>)

  datatype Difficulty = Easy | Medium | Difficult

  /** How many parts a difficulty level lets the visitor select at once. */
  function MaxParts(level: Difficulty): (n: nat)
    ensures 1 <= n <= 3
  {
    match level
    case Easy => 1
    case Medium => 2
    case Difficult => 3
  }

  ghost predicate DistinctIds(parts: seq<Part>) {
    forall i, j :: 0 <= i < j < |parts| ==> parts[i].id != parts[j].id
  }

  /** Some selected part has `id`. */
  predicate Selected(parts: seq<Part>, id: string) {
    exists i :: 0 <= i < |parts| && parts[i].id == id
  }

  /** `findIndex(p => p.id === id)`: the first position holding `id`, or -1. */
  function IndexOfId(parts: seq<Part>, id: string): (k: int)
    ensures -1 <= k < |parts|
    ensures k >= 0 ==> parts[k].id == id
    ensures forall i :: 0 <= i < |parts| && (k < 0 || i < k) ==> parts[i].id != id
  {
    if parts == [] then -1
    else if parts[0].id == id then 0
    else
      var k := IndexOfId(parts[1..], id);
      if k < 0 then -1 else k + 1
  }

  /** The selection after `addSelectedPart(part)` at `level`. */
  function AfterAdd(parts: seq<Part>, part: Part, level: Difficulty): seq<Part> {
    var index := IndexOfId(parts, part.id);
    if index > -1 then Spliced(parts, index)
    else if |parts| < MaxParts(level) then parts + [part]
    else parts[1..] + [part]
  }

  /**
   * A part already selected is removed: the first element with its id goes,
   * and the others keep their order.
   */
  lemma AddRemovesSelected(parts: seq<Part>, part: Part, level: Difficulty)
    requires Selected(parts, part.id)
    ensures var k := IndexOfId(parts, part.id);
      && 0 <= k < |parts| && parts[k].id == part.id
      && AfterAdd(parts, part, level) == Spliced(parts, k)
      && |AfterAdd(parts, part, level)| == |parts| - 1
  {
  }

  /** A new part is appended while there is room; nothing else changes. */
  lemma AddAppendsWhenRoom(parts: seq<Part>, part: Part, level: Difficulty)
    requires !Selected(parts, part.id) && |parts| < MaxParts(level)
    ensures AfterAdd(parts, part, level) == parts + [part]
  {
    assert IndexOfId(parts, part.id) == -1;
  }

  /** At capacity, a new part displaces the oldest one and the length stays the same. */
  lemma AddReplacesOldest(parts: seq<Part>, part: Part, level: Difficulty)
    requires !Selected(parts, part.id) && |parts| >= MaxParts(level)
    ensures AfterAdd(parts, part, level) == parts[1..] + [part]
    ensures |AfterAdd(parts, part, level)| == |parts|
  {
    assert IndexOfId(parts, part.id) == -1;
  }

  /** `splice(k, 1)` on a list: element i of the rest is element i, or i + 1 from `k` on, of the original. */
  function Spliced(parts: seq<Part>, k: nat): (r: seq<Part>)
    requires k < |parts|
    ensures |r| == |parts| - 1
    ensures forall i :: 0 <= i < k ==> r[i] == parts[i]
    ensures forall i :: k <= i < |r| ==> r[i] == parts[i + 1]
  {
    parts[..k] + parts[k + 1..]
  }

  /** With distinct ids, removing the part at `k` leaves no part with its id. */
  lemma SplicedDropsId(parts: seq<Part>, k: nat)
    requires DistinctIds(parts) && k < |parts|
    ensures !Selected(Spliced(parts, k), parts[k].id)
  {
    var r := Spliced(parts, k);
    forall i | 0 <= i < |r| ensures r[i].id != parts[k].id {
      var i' := if i < k then i else i + 1;
      assert r[i] == parts[i'] && i' != k;
    }
  }

  /** With distinct ids, adding toggles: the part is selected afterwards exactly when it was not before. */
  lemma AddToggles(parts: seq<Part>, part: Part, level: Difficulty)
    requires DistinctIds(parts)
    ensures Selected(AfterAdd(parts, part, level), part.id) <==> !Selected(parts, part.id)
  {
    var r := AfterAdd(parts, part, level);
    var k := IndexOfId(parts, part.id);
    if k > -1 {
      SplicedDropsId(parts, k);
      assert Selected(parts, part.id);
    } else {
      assert !Selected(parts, part.id);
      assert r[|r| - 1] == part;
    }
  }

  /** Every part in the selection afterwards is the added one or was there before. */
  lemma AddElements(parts: seq<Part>, part: Part, level: Difficulty)
    ensures forall x :: x in AfterAdd(parts, part, level) ==> x in parts || x == part
  {
    var k := IndexOfId(parts, part.id);
    if k > -1 {
      assert Spliced(parts, k) == parts[..k] + parts[k + 1..];
    } else if |parts| >= MaxParts(level) {
      assert parts == [parts[0]] + parts[1..];
    }
  }

  /** Every id selected afterwards is the added one or was selected before. */
  lemma AddSelectsNothingElse(parts: seq<Part>, part: Part, level: Difficulty, id: string)
    requires Selected(AfterAdd(parts, part, level), id) && id != part.id
    ensures Selected(parts, id)
  {
    var r := AfterAdd(parts, part, level);
    var i :| 0 <= i < |r| && r[i].id == id;
    AddElements(parts, part, level);
    assert r[i] in parts;
  }

  /**
   * addSelectedPart keeps the selection state sound: ids stay distinct, and
   * the length stays within the capacity whenever it was within it before.
   */
  lemma AddPreservesInvariant(parts: seq<Part>, part: Part, level: Difficulty)
    requires DistinctIds(parts) && |parts| <= MaxParts(level)
    ensures DistinctIds(AfterAdd(parts, part, level))
    ensures |AfterAdd(parts, part, level)| <= MaxParts(level)
  {
    var r := AfterAdd(parts, part, level);
    var k := IndexOfId(parts, part.id);
    if k > -1 {
      forall i, j | 0 <= i < j < |r| ensures r[i].id != r[j].id {
        var i' := if i < k then i else i + 1;
        var j' := if j < k then j else j + 1;
        assert r[i] == parts[i'] && r[j] == parts[j'];
      }
    } else {
      var kept := if |parts| < MaxParts(level) then parts else parts[1..];
      assert r == kept + [part];
      forall i, j | 0 <= i < j < |r| ensures r[i].id != r[j].id {
        if j == |r| - 1 {
          assert r[i] in parts;
        } else {
          assert r[i] in parts && r[j] in parts;
          var d := if |parts| < MaxParts(level) then 0 else 1;
          assert r[i] == parts[i + d] && r[j] == parts[j + d];
        }
      }
    }
  }

  /** Once the selection is over capacity, adding a new part does not bring it back within it. */
  lemma AddKeepsOverCapacity(parts: seq<Part>, part: Part, level: Difficulty)
    requires !Selected(parts, part.id) && |parts| > MaxParts(level)
    ensures |AfterAdd(parts, part, level)| > MaxParts(level)
  {
    AddReplacesOldest(parts, part, level);
  }

  /** Adding a new part while there is room and adding it again restores the selection. */
  lemma AddTwiceRestores(parts: seq<Part>, part: Part, level: Difficulty)
    requires !Selected(parts, part.id) && |parts| < MaxParts(level)
    ensures AfterAdd(AfterAdd(parts, part, level), part, level) == parts
  {
    AddAppendsWhenRoom(parts, part, level);
    var r := parts + [part];
    assert IndexOfId(r, part.id) == |parts| by {
      assert r[|parts|].id == part.id;
      assert forall i :: 0 <= i < |parts| ==> r[i].id != part.id by {
        assert forall i :: 0 <= i < |parts| ==> r[i] == parts[i];
      }
    }
    assert r[..|parts|] == parts;
  }

  /** At the easy level a new part simply replaces the one selected part. */
  lemma EasyReplacesSelection(current: Part, part: Part)
    requires current.id != part.id
    ensures AfterAdd([current], part, Easy) == [part]
  {
    assert !Selected([current], part.id);
    AddReplacesOldest([current], part, Easy);
  }

  /** The selection kept by `setDifficulty(level)`: its first `MaxParts(level)` parts. */
  function Fitted(parts: seq<Part>, level: Difficulty): (r: seq<Part>)
    ensures |r| == Min(|parts|, MaxParts(level))
    ensures r == parts[..|r|]
  {
    if |parts| > MaxParts(level) then parts[..MaxParts(level)] else parts
  }

  /** Fitting trims only a list that is too long, and keeps distinct ids distinct. */
  lemma FittedProperties(parts: seq<Part>, level: Difficulty)
    ensures |parts| <= MaxParts(level) ==> Fitted(parts, level) == parts
    ensures DistinctIds(parts) ==> DistinctIds(Fitted(parts, level))
    ensures Fitted(Fitted(parts, level), level) == Fitted(parts, level)
  {
  }

  /** The shared selection: the selected parts, oldest first, and the difficulty level. */
  class Selection {
    var selectedParts: seq<Part>
    var difficulty: Difficulty

    /** Distinct ids, and no more parts than the level allows. */
    ghost predicate Valid()
      reads this
    {
      DistinctIds(selectedParts) && |selectedParts| <= MaxParts(difficulty)
    }

    /** The initial state: nothing selected, at medium. */
    constructor ()
      ensures selectedParts == [] && difficulty == Medium
      ensures Valid()
    {
      selectedParts := [];
      difficulty := Medium;
    }

    /** setSelectedPart: select exactly `part`. */
    method SetSelectedPart(part: Part)
      modifies this
      ensures selectedParts == [part] && difficulty == old(difficulty)
      ensures Valid()
    {
      selectedParts := [part];
    }

    /** setSelectedParts: take `parts` verbatim, without checking ids or capacity. */
    method SetSelectedParts(parts: seq<Part>)
      modifies this
      ensures selectedParts == parts && difficulty == old(difficulty)
      ensures DistinctIds(parts) && |parts| <= MaxParts(difficulty) ==> Valid()
    {
      selectedParts := parts;
    }

    /** addSelectedPart: toggle `part` in the selection, displacing the oldest at capacity. */
    method AddSelectedPart(part: Part)
      modifies this
      ensures selectedParts == AfterAdd(old(selectedParts), part, difficulty)
      ensures difficulty == old(difficulty)
      ensures old(Valid()) ==> Valid()
    {
      ghost var before := selectedParts;
      var maxParts := MaxParts(difficulty);
      var index := IndexOfId(selectedParts, part.id);
      if index > -1 {
        selectedParts := selectedParts[..index] + selectedParts[index + 1..];
      } else if |selectedParts| < maxParts {
        selectedParts := selectedParts + [part];
      } else {
        selectedParts := selectedParts[1..];
        selectedParts := selectedParts + [part];
      }
      if DistinctIds(before) && |before| <= maxParts {
        AddPreservesInvariant(before, part, difficulty);
      }
    }

    /** getSelectedPart: the oldest selected part, or nothing. */
    method GetSelectedPart() returns (part: Option<Part>)
      ensures part.Some? <==> selectedParts != []
      ensures part.Some? ==> part.value == selectedParts[0]
    {
      if |selectedParts| > 0 {
        part := Some(selectedParts[0]);
      } else {
        part := None;
      }
    }

    /** setDifficulty: record the level and trim the selection to its capacity. */
    method SetDifficulty(level: Difficulty)
      modifies this
      ensures difficulty == level
      ensures selectedParts == Fitted(old(selectedParts), level)
      ensures |selectedParts| <= MaxParts(level)
      ensures old(DistinctIds(selectedParts)) ==> Valid()
    {
      difficulty := level;
      var maxParts := MaxParts(level);
      if |selectedParts| > maxParts {
        selectedParts := selectedParts[..maxParts];
      }
    }

    /** clearSelectedPart: select nothing. */
    method ClearSelectedPart()
      modifies this
      ensures selectedParts == [] && difficulty == old(difficulty)
      ensures Valid()
    {
      selectedParts := [];
    }
  }
}
