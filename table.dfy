/**
 * The participants table's component state: the selection, the select-all
 * flag, the current page, the sort field and direction, and the row being
 * edited. Rows are identified by their position in the roster.
 */
module Table {
  import opened Wrappers
  import opened Roster
  import opened Projection

  /** `sortedParticipantsWithIndices[sortedIndex]?.originalIndex ?? sortedIndex`. */
  function OriginalIndexAt(rows: seq<Row>, sortedIndex: int): int {
    if 0 <= sortedIndex < |rows| then rows[sortedIndex].originalIndex else sortedIndex
  }

  /** The roster positions of the given rows. */
  function PositionsOf(rows: seq<Row>): set<int> {
    set r | r in rows :: r.originalIndex
  }

  class ParticipantsTable {
    const itemsPerPage: nat
    /** `localeCompare` in the current language. */
    const collate: (string, string) -> int
    /** The `participants` prop: the roster as the page last passed it. */
    var participants: seq<Participant>
    var editingIndex: Option<int>
    var editData: Option<Participant>
    var selectedIndices: set<int>
    var selectAll: bool
    var currentPage: int
    var sortField: Option<SortField>
    var sortDirection: Direction

    ghost predicate Valid()
      reads this
    {
      itemsPerPage >= 1 && currentPage >= 1
    }

    /** The initial state: nothing selected or edited, page 1, unsorted, ascending. */
    constructor(participants: seq<Participant>, itemsPerPage: nat, collate: (string, string) -> int)
      requires itemsPerPage >= 1
      ensures Valid()
      ensures this.participants == participants && this.itemsPerPage == itemsPerPage && this.collate == collate
      ensures editingIndex == None && editData == None
      ensures selectedIndices == {} && !selectAll && currentPage == 1
      ensures sortField == None && sortDirection == Asc
    {
      this.itemsPerPage := itemsPerPage;
      this.collate := collate;
      this.participants := participants;
      editingIndex := None;
      editData := None;
      selectedIndices := {};
      selectAll := false;
      currentPage := 1;
      sortField := None;
      sortDirection := Asc;
    }

    /** The sorted rows with their roster positions. */
    function Rows(): seq<Row>
      reads this
    {
      SortedRows(participants, sortField, sortDirection, collate)
    }

    /** `currentParticipants`, with their positions. */
    function CurrentRows(): seq<Row>
      reads this
    {
      PageRows(Rows(), currentPage, itemsPerPage)
    }

    /**
     * The page re-renders with a new roster. A non-empty roster only changes
     * the prop; the selection, page, sort and edit state are kept. The page
     * renders the table only while the roster is non-empty, so an empty
     * roster unmounts it and the next roster meets a freshly mounted table:
     * that is modelled as a return to the initial state.
     */
    method SetParticipants(ps: seq<Participant>)
      modifies this
      ensures participants == ps
      ensures ps != [] ==>
        selectedIndices == old(selectedIndices) && selectAll == old(selectAll) &&
        currentPage == old(currentPage) && sortField == old(sortField) && sortDirection == old(sortDirection) &&
        editingIndex == old(editingIndex) && editData == old(editData)
      ensures ps == [] ==>
        selectedIndices == {} && !selectAll && currentPage == 1 && sortField == None && sortDirection == Asc &&
        editingIndex == None && editData == None
    {
      participants := ps;
      if ps == [] {
        editingIndex := None;
        editData := None;
        selectedIndices := {};
        selectAll := false;
        currentPage := 1;
        sortField := None;
        sortDirection := Asc;
      }
    }

    /**
     * `handleSort`: the current field flips direction, a new field starts
     * ascending; either way the table returns to page 1.
     */
    method HandleSort(field: SortField)
      requires Valid()
      modifies this
      ensures Valid()
      ensures old(sortField) == Some(field) ==>
        sortField == old(sortField) && sortDirection == (if old(sortDirection) == Asc then Desc else Asc)
      ensures old(sortField) != Some(field) ==> sortField == Some(field) && sortDirection == Asc
      ensures currentPage == 1
      ensures participants == old(participants) && selectedIndices == old(selectedIndices) && selectAll == old(selectAll)
      ensures editingIndex == old(editingIndex) && editData == old(editData)
    {
      if sortField == Some(field) {
        sortDirection := if sortDirection == Asc then Desc else Asc;
      } else {
        sortField := Some(field);
        sortDirection := Asc;
      }
      currentPage := 1;
    }

    /** `handleEdit`: start editing the row at a roster position with a copy of its participant. */
    method HandleEdit(globalIndex: int)
      requires 0 <= globalIndex < |participants|
      modifies this
      ensures participants == old(participants)
      ensures editingIndex == Some(globalIndex) && editData == Some(participants[globalIndex])
      ensures selectedIndices == old(selectedIndices) && selectAll == old(selectAll)
      ensures currentPage == old(currentPage) && sortField == old(sortField) && sortDirection == old(sortDirection)
    {
      editingIndex := Some(globalIndex);
      editData := Some(participants[globalIndex]);
    }

    /**
     * `handleSave`: hand the edited copy to `onUpdate` for that position (when
     * there is one) and leave editing mode.
     */
    method HandleSave(globalIndex: int) returns (update: Option<(int, Participant)>)
      modifies this
      ensures update == (if old(editData).Some? then Some((globalIndex, old(editData).value)) else None)
      ensures editingIndex == None && editData == None
      ensures participants == old(participants) && selectedIndices == old(selectedIndices) && selectAll == old(selectAll)
      ensures currentPage == old(currentPage) && sortField == old(sortField) && sortDirection == old(sortDirection)
    {
      update := if editData.Some? then Some((globalIndex, editData.value)) else None;
      editingIndex := None;
      editData := None;
    }

    /** `handleCancel`: leave editing mode, discarding the copy. */
    method HandleCancel()
      modifies this
      ensures editingIndex == None && editData == None
      ensures participants == old(participants) && selectedIndices == old(selectedIndices) && selectAll == old(selectAll)
      ensures currentPage == old(currentPage) && sortField == old(sortField) && sortDirection == old(sortDirection)
    {
      editingIndex := None;
      editData := None;
    }

    /** The name input while editing. */
    method EditFio(value: string)
      modifies this
      ensures editData == (if old(editData).Some? then Some(old(editData).value.(fio := value)) else None)
      ensures editingIndex == old(editingIndex) && participants == old(participants)
      ensures selectedIndices == old(selectedIndices) && selectAll == old(selectAll)
      ensures currentPage == old(currentPage) && sortField == old(sortField) && sortDirection == old(sortDirection)
    {
      if editData.Some? {
        editData := Some(editData.value.(fio := value));
      }
    }

    /** The e-mail input while editing. */
    method EditEmail(value: string)
      modifies this
      ensures editData == (if old(editData).Some? then Some(old(editData).value.(email := value)) else None)
      ensures editingIndex == old(editingIndex) && participants == old(participants)
      ensures selectedIndices == old(selectedIndices) && selectAll == old(selectAll)
      ensures currentPage == old(currentPage) && sortField == old(sortField) && sortDirection == old(sortDirection)
    {
      if editData.Some? {
        editData := Some(editData.value.(email := value));
      }
    }

    /** The role select while editing. */
    method EditRole(value: string)
      modifies this
      ensures editData == (if old(editData).Some? then Some(old(editData).value.(role := value)) else None)
      ensures editingIndex == old(editingIndex) && participants == old(participants)
      ensures selectedIndices == old(selectedIndices) && selectAll == old(selectAll)
      ensures currentPage == old(currentPage) && sortField == old(sortField) && sortDirection == old(sortDirection)
    {
      if editData.Some? {
        editData := Some(editData.value.(role := value));
      }
    }

    /**
     * The place input while editing: an empty value clears the place, a
     * value `parseInt` reads as a positive number sets it, anything else is
     * ignored.
     */
    method EditPlace(value: string, parseInt: string -> Option<int>)
      modifies this
      ensures old(editData).None? ==> editData == None
      ensures old(editData).Some? && value == "" ==> editData == Some(old(editData).value.(place := Absent))
      ensures old(editData).Some? && value != "" ==>
        editData == (match parseInt(value)
                       case Some(n) => if n > 0 then Some(old(editData).value.(place := Num(n))) else old(editData)
                       case None => old(editData))
      ensures editingIndex == old(editingIndex) && participants == old(participants)
      ensures selectedIndices == old(selectedIndices) && selectAll == old(selectAll)
      ensures currentPage == old(currentPage) && sortField == old(sortField) && sortDirection == old(sortDirection)
    {
      if editData.Some? {
        if value == "" {
          editData := Some(editData.value.(place := Absent));
        } else {
          var parsed := parseInt(value);
          if parsed.Some? && parsed.value > 0 {
            editData := Some(editData.value.(place := Num(parsed.value)));
          }
        }
      }
    }

    /**
     * `handleSelectAll`: with the flag set, empty the whole selection and
     * clear the flag; otherwise add the current page's roster positions to
     * the selection and set the flag when the selection has as many entries
     * as the roster.
     */
    method HandleSelectAll()
      requires Valid()
      modifies this
      ensures Valid()
      ensures old(selectAll) ==> selectedIndices == {} && !selectAll
      ensures !old(selectAll) ==>
        selectedIndices == old(selectedIndices) + PositionsOf(old(CurrentRows())) &&
        selectAll == (|selectedIndices| == |participants|)
      ensures participants == old(participants) && currentPage == old(currentPage)
      ensures sortField == old(sortField) && sortDirection == old(sortDirection)
      ensures editingIndex == old(editingIndex) && editData == old(editData)
    {
      if selectAll {
        selectedIndices := {};
        selectAll := false;
      } else {
        var newSelected := AddPagePositions(selectedIndices, Rows(), currentPage, itemsPerPage);
        selectedIndices := newSelected;
        selectAll := |newSelected| == |participants|;
      }
    }

    /**
     * `handleSelect`: toggle one roster position, and set the flag exactly
     * when the whole current page is selected and the selection has as many
     * entries as the roster.
     */
    method HandleSelect(originalIndex: int)
      modifies this
      ensures originalIndex in old(selectedIndices) ==> selectedIndices == old(selectedIndices) - {originalIndex}
      ensures originalIndex !in old(selectedIndices) ==> selectedIndices == old(selectedIndices) + {originalIndex}
      ensures selectAll == (PositionsOf(CurrentRows()) <= selectedIndices && |selectedIndices| == |participants|)
      ensures participants == old(participants) && currentPage == old(currentPage)
      ensures sortField == old(sortField) && sortDirection == old(sortDirection)
      ensures editingIndex == old(editingIndex) && editData == old(editData)
    {
      var newSelected := if originalIndex in selectedIndices then selectedIndices - {originalIndex}
                         else selectedIndices + {originalIndex};
      selectedIndices := newSelected;
      var allCurrentPageSelected := PositionsOf(CurrentRows()) <= newSelected;
      selectAll := allCurrentPageSelected && |newSelected| == |participants|;
    }

    /**
     * `handleRemoveMultiple`: with a non-empty selection, hand its positions
     * to `onRemoveMultiple`, empty the selection, clear the flag and step the
     * page back as `PageAfterRemoval` says; with none, do nothing.
     */
    method HandleRemoveMultiple() returns (removed: Option<seq<int>>)
      requires Valid()
      modifies this
      ensures Valid()
      ensures old(selectedIndices) == {} ==> removed == None && currentPage == old(currentPage) && selectedIndices == {}
      ensures old(selectedIndices) != {} ==>
        removed.Some? && (forall i :: i in removed.value <==> i in old(selectedIndices)) &&
        (forall a, b :: 0 <= a < b < |removed.value| ==> removed.value[a] != removed.value[b]) &&
        selectedIndices == {} && !selectAll &&
        currentPage == PageAfterRemoval(old(currentPage), |participants|, |old(selectedIndices)|, itemsPerPage)
      ensures participants == old(participants) && sortField == old(sortField) && sortDirection == old(sortDirection)
      ensures editingIndex == old(editingIndex) && editData == old(editData)
    {
      if selectedIndices == {} {
        removed := None;
        return;
      }
      var indices := ArrayFrom(selectedIndices);
      removed := Some(indices);
      var size := |selectedIndices|;
      selectedIndices := {};
      selectAll := false;
      if currentPage > 1 && currentPage > CeilDiv(|participants| - size, itemsPerPage) {
        currentPage := currentPage - 1;
      }
    }

    /** `handlePageChange`: go to a page and clear the flag; the selection is kept. */
    method HandlePageChange(page: int)
      requires Valid() && page >= 1
      modifies this
      ensures Valid()
      ensures currentPage == page && !selectAll && selectedIndices == old(selectedIndices)
      ensures participants == old(participants) && sortField == old(sortField) && sortDirection == old(sortDirection)
      ensures editingIndex == old(editingIndex) && editData == old(editData)
    {
      currentPage := page;
      selectAll := false;
    }
  }

  /**
   * The `forEach` of `handleSelectAll`: a copy of the selection with the
   * roster position of every row on the page added.
   */
  method AddPagePositions(selected: set<int>, rows: seq<Row>, currentPage: int, itemsPerPage: nat)
    returns (newSelected: set<int>)
    requires currentPage >= 1 && itemsPerPage >= 1
    ensures newSelected == selected + PositionsOf(PageRows(rows, currentPage, itemsPerPage))
  {
    var page := PageRows(rows, currentPage, itemsPerPage);
    var startIndex := (currentPage - 1) * itemsPerPage;
    newSelected := selected;
    for localIndex := 0 to |page|
      invariant newSelected == selected + set j | 0 <= j < localIndex :: page[j].originalIndex
    {
      var originalIndex := OriginalIndexAt(rows, startIndex + localIndex);
      OriginalIndexOnPage(rows, currentPage, itemsPerPage, localIndex);
      newSelected := newSelected + {originalIndex};
    }
    PositionsByIndex(page);
  }

  /** On a page that exists, the `?? sortedIndex` fallback is never taken. */
  lemma OriginalIndexOnPage(rows: seq<Row>, currentPage: int, itemsPerPage: nat, localIndex: int)
    requires currentPage >= 1 && itemsPerPage >= 1
    requires 0 <= localIndex < |PageRows(rows, currentPage, itemsPerPage)|
    ensures OriginalIndexAt(rows, (currentPage - 1) * itemsPerPage + localIndex)
      == PageRows(rows, currentPage, itemsPerPage)[localIndex].originalIndex
  {
    PageRowsRange(rows, currentPage, itemsPerPage);
    var a := (currentPage - 1) * itemsPerPage;
    var page := PageRows(rows, currentPage, itemsPerPage);
    assert a < |rows|;
    var b := if a + itemsPerPage < |rows| then a + itemsPerPage else |rows|;
    SliceOriginalIndex(rows, a, b, localIndex);
  }

  lemma SliceOriginalIndex(rows: seq<Row>, a: int, b: int, i: int)
    requires 0 <= a <= b <= |rows| && 0 <= i < b - a
    ensures OriginalIndexAt(rows, a + i) == rows[a..b][i].originalIndex
  {
  }

  lemma PositionsByIndex(page: seq<Row>)
    ensures (set j | 0 <= j < |page| :: page[j].originalIndex) == PositionsOf(page)
  {
    forall r | r in page
      ensures r.originalIndex in set j | 0 <= j < |page| :: page[j].originalIndex
    {
      var j :| 0 <= j < |page| && page[j] == r;
    }
  }

  /** `Array.from(set)`: each element of the set once, in some order. */
  method ArrayFrom(s: set<int>) returns (xs: seq<int>)
    ensures forall i :: i in xs <==> i in s
    ensures forall a, b :: 0 <= a < b < |xs| ==> xs[a] != xs[b]
    ensures |xs| == |s|
  {
    xs := [];
    var rest := s;
    while rest != {}
      invariant rest <= s
      invariant forall i :: i in xs <==> i in s && i !in rest
      invariant forall a, b :: 0 <= a < b < |xs| ==> xs[a] != xs[b]
      invariant |xs| + |rest| == |s|
      decreases |rest|
    {
      assert exists x :: x in rest by {
        if forall x :: x !in rest {
          assert false;
        }
      }
      var x :| x in rest;
      xs := xs + [x];
      rest := rest - {x};
    }
  }

  // ------------------------------------------- selection after a single remove

  /**
   * A single-row remove keeps `selectedIndices` as it was: every selected
   * position at or after the removed one now names the participant that
   * followed the one the user selected. With `[a, b, c]`, `b` selected and
   * `a` removed, position 1 now holds `c`.
   */
  lemma StaleSelectionAfterRemove(ps: seq<Participant>, index: int, j: int)
    requires 0 <= index <= j < |ps| - 1
    ensures |RemoveAt(ps, index)| == |ps| - 1 && RemoveAt(ps, index)[j] == ps[j + 1]
  {
    RemoveAtDropsOne(ps, index);
  }

  /** The smallest case: the selected `b` turns into `c`. */
  lemma StaleSelectionExample(a: Participant, b: Participant, c: Participant)
    requires b != c
    ensures |RemoveAt([a, b, c], 0)| == 2 && RemoveAt([a, b, c], 0)[1] == c && [a, b, c][1] == b
  {
    StaleSelectionAfterRemove([a, b, c], 0, 1);
  }

  /** Where position `j` of the roster after removing `index` was before. */
  function Origin(j: int, index: int): int {
    if j < index then j else j + 1
  }

  /** The selection carried across removing position `index`: that position dropped, the later ones shifted down. */
  function ShiftSelection(selected: set<int>, index: int): set<int> {
    set j | j in selected && j != index :: if j > index then j - 1 else j
  }

  /**
   * After removing `index`, the shifted selection holds exactly the new
   * positions whose participant was selected before, and each new position
   * holds the participant from its origin.
   */
  lemma ShiftedSelectionFollowsParticipants(ps: seq<Participant>, selected: set<int>, index: int)
    requires 0 <= index < |ps|
    requires forall j :: j in selected ==> 0 <= j < |ps|
    ensures var after, sel := RemoveAt(ps, index), ShiftSelection(selected, index);
      |after| == |ps| - 1 &&
      (forall j :: j in sel <==> 0 <= j < |after| && Origin(j, index) in selected) &&
      (forall j :: 0 <= j < |after| ==> after[j] == ps[Origin(j, index)])
  {
    RemoveAtDropsOne(ps, index);
    var sel := ShiftSelection(selected, index);
    forall j | 0 <= j < |ps| - 1 && Origin(j, index) in selected
      ensures j in sel
    {
      var i := Origin(j, index);
      assert i != index && (if i > index then i - 1 else i) == j;
    }
  }
}
