/**
 * The participants table's view of the roster: each participant paired with
 * its position in the roster, sorted on a copy by name, role or place, then
 * cut into pages, with a window of page buttons around the current page.
 */
module Projection {
  import opened Wrappers
  import opened Roster

  /** `{ participant, originalIndex }`: a participant and its position in the roster. */
  datatype Row = Row(participant: Participant, originalIndex: int)

  datatype SortField = ByFio | ByRole | ByPlace

  datatype Direction = Asc | Desc

  /** `participants.map((p, index) => ({ participant: p, originalIndex: index }))`. */
  function WithIndices(ps: seq<Participant>): (r: seq<Row>)
    ensures |r| == |ps| && forall i :: 0 <= i < |ps| ==> r[i] == Row(ps[i], i)
  {
    seq(|ps|, i requires 0 <= i < |ps| => Row(ps[i], i))
  }

  // ------------------------------------------------------------- ordering

  /** `roleOrder[role] || 0`: the fixed rank of the four roles, 0 for any other text. */
  function RoleRank(role: string): int {
    if role == "участник" then 1
    else if role == "докладчик" then 2
    else if role == "призер" then 3
    else if role == "победитель" then 4
    else 0
  }

  /** The role ranks: participant, speaker, prize winner, winner; anything else ranks 0. */
  lemma RoleRanks(other: string)
    requires other != "участник" && other != "докладчик" && other != "призер" && other != "победитель"
    ensures RoleRank("участник") == 1 && RoleRank("докладчик") == 2
    ensures RoleRank("призер") == 3 && RoleRank("победитель") == 4
    ensures RoleRank(other) == 0
  {
  }

  /** `place ?? 999`, with `None` for a `NaN` place (the subtraction then gives `NaN`). */
  function PlaceKey(p: Place): Option<int> {
    match p
      case Absent => Some(999)
      case Num(n) => Some(n)
      case NotANumber => None
  }

  /**
   * The comparison before the direction is applied: `localeCompare` for the
   * name, the rank difference for the role, the place difference for the
   * place; `None` stands for `NaN`.
   */
  function RawCompare(field: SortField, collate: (string, string) -> int, a: Participant, b: Participant): Option<int> {
    match field
      case ByFio => Some(collate(a.fio, b.fio))
      case ByRole => Some(RoleRank(a.role) - RoleRank(b.role))
      case ByPlace =>
        match (PlaceKey(a.place), PlaceKey(b.place))
          case (Some(x), Some(y)) => Some(x - y)
          case _ => None
  }

  /**
   * The comparator as the sort sees it: `desc` negates the comparison, and a
   * `NaN` result counts as 0 (ECMAScript's SortCompare, section 23.1.3.30.2).
   */
  function Compare(field: SortField, dir: Direction, collate: (string, string) -> int, a: Row, b: Row): int {
    match RawCompare(field, collate, a.participant, b.participant)
      case None => 0
      case Some(c) => if dir == Asc then c else -c
  }

  /** Descending is ascending negated, for every pair of rows. */
  lemma DescNegatesAsc(field: SortField, collate: (string, string) -> int, a: Row, b: Row)
    ensures Compare(field, Desc, collate, a, b) == -Compare(field, Asc, collate, a, b)
  {
  }

  /**
   * An unranked row against a row ranked below 999: ascending puts the
   * unranked one after it, descending before it.
   */
  lemma UnrankedAgainstRanked(collate: (string, string) -> int, a: Row, b: Row)
    requires a.participant.place == Absent && b.participant.place.Num? && b.participant.place.n < 999
    ensures Compare(ByPlace, Asc, collate, a, b) > 0 && Compare(ByPlace, Asc, collate, b, a) < 0
    ensures Compare(ByPlace, Desc, collate, a, b) < 0 && Compare(ByPlace, Desc, collate, b, a) > 0
  {
  }

  // ----------------------------------------------------------- the sort

  /** A comparator behaves as a total preorder on the given rows. */
  ghost predicate Consistent(cmp: (Row, Row) -> int, rows: seq<Row>) {
    (forall a, b {:trigger a in rows, b in rows} :: a in rows && b in rows ==> (cmp(a, b) < 0 <==> cmp(b, a) > 0)) &&
    (forall a, b, c {:trigger a in rows, b in rows, c in rows} ::
      a in rows && b in rows && c in rows && cmp(a, b) <= 0 && cmp(b, c) <= 0 ==> cmp(a, c) <= 0)
  }

  /** Every pair in order, and rows that compare equal keep their original order. */
  ghost predicate StablySorted(cmp: (Row, Row) -> int, s: seq<Row>) {
    forall i, j :: 0 <= i < j < |s| ==>
      cmp(s[i], s[j]) <= 0 && (cmp(s[i], s[j]) == 0 ==> s[i].originalIndex < s[j].originalIndex)
  }

  /** Insert `x` behind every row of `s` that does not compare greater than it. */
  function Insert(s: seq<Row>, x: Row, cmp: (Row, Row) -> int): (r: seq<Row>)
    ensures multiset(r) == multiset(s) + multiset{x}
  {
    if s == [] then [x]
    else
      var n := |s| - 1;
      if cmp(s[n], x) > 0 then
        assert s == s[..n] + [s[n]];
        Insert(s[..n], x, cmp) + [s[n]]
      else s + [x]
  }

  /** A stable insertion sort: `[...withIndices].sort(cmp)`. */
  function Sort(rows: seq<Row>, cmp: (Row, Row) -> int): (r: seq<Row>)
    ensures multiset(r) == multiset(rows)
  {
    if rows == [] then []
    else
      var n := |rows| - 1;
      assert rows == rows[..n] + [rows[n]];
      Insert(Sort(rows[..n], cmp), rows[n], cmp)
  }

  /** Consistency on a sequence carries over to any sequence whose rows it contains. */
  lemma ConsistentSub(cmp: (Row, Row) -> int, rows: seq<Row>, sub: seq<Row>)
    requires Consistent(cmp, rows)
    requires forall r :: r in sub ==> r in rows
    ensures Consistent(cmp, sub)
  {
  }

  /** Appending a row that every row before it precedes keeps a sequence stably sorted. */
  lemma SnocSorted(t: seq<Row>, y: Row, cmp: (Row, Row) -> int)
    requires StablySorted(cmp, t)
    requires forall i :: 0 <= i < |t| ==>
      cmp(t[i], y) <= 0 && (cmp(t[i], y) == 0 ==> t[i].originalIndex < y.originalIndex)
    ensures StablySorted(cmp, t + [y])
  {
  }

  /** Every row of a stably sorted `s` precedes `x` when its last row does. */
  lemma BelowLast(s: seq<Row>, x: Row, cmp: (Row, Row) -> int)
    requires s != [] && StablySorted(cmp, s) && Consistent(cmp, s + [x])
    requires cmp(s[|s| - 1], x) <= 0
    ensures forall i :: 0 <= i < |s| ==> cmp(s[i], x) <= 0
  {
    var n := |s| - 1;
    forall i | 0 <= i < n
      ensures cmp(s[i], x) <= 0
    {
      assert s[i] in s + [x] && s[n] in s + [x] && x in s + [x];
    }
  }

  /** The rows of `s` but its last, together with a row `x` below that last one, all precede it. */
  lemma InsertedBelowLast(s: seq<Row>, x: Row, cmp: (Row, Row) -> int, t: seq<Row>)
    requires s != [] && StablySorted(cmp, s)
    requires cmp(x, s[|s| - 1]) < 0
    requires multiset(t) == multiset(s[..|s| - 1]) + multiset{x}
    ensures forall i :: 0 <= i < |t| ==>
      cmp(t[i], s[|s| - 1]) <= 0 && (cmp(t[i], s[|s| - 1]) == 0 ==> t[i].originalIndex < s[|s| - 1].originalIndex)
  {
    var n := |s| - 1;
    var init := s[..n];
    forall i | 0 <= i < |t|
      ensures cmp(t[i], s[n]) <= 0 && (cmp(t[i], s[n]) == 0 ==> t[i].originalIndex < s[n].originalIndex)
    {
      assert t[i] in multiset(t);
      if t[i] != x {
        assert t[i] in multiset(init);
        var k :| 0 <= k < n && init[k] == t[i];
        assert s[k] == t[i];
      }
    }
  }

  /** Inserting a row with a larger original index than all others keeps a stably sorted sequence stably sorted. */
  lemma {:induction false} InsertSorted(s: seq<Row>, x: Row, cmp: (Row, Row) -> int)
    requires StablySorted(cmp, s)
    requires Consistent(cmp, s + [x])
    requires forall r :: r in s ==> r.originalIndex < x.originalIndex
    ensures StablySorted(cmp, Insert(s, x, cmp))
  {
    if s != [] {
      var n := |s| - 1;
      var last := s[n];
      if cmp(last, x) > 0 {
        var init := s[..n];
        ConsistentSub(cmp, s + [x], init + [x]);
        InsertSorted(init, x, cmp);
        var t := Insert(init, x, cmp);
        assert last in s + [x] && x in s + [x];
        assert cmp(x, last) < 0;
        InsertedBelowLast(s, x, cmp, t);
        SnocSorted(t, last, cmp);
        assert Insert(s, x, cmp) == t + [last];
      } else {
        BelowLast(s, x, cmp);
        SnocSorted(s, x, cmp);
      }
    }
  }

  /** The sort's rows are rows of its input. */
  lemma SortMembers(rows: seq<Row>, cmp: (Row, Row) -> int)
    ensures forall r :: r in Sort(rows, cmp) ==> r in rows
  {
    forall r | r in Sort(rows, cmp)
      ensures r in rows
    {
      assert r in multiset(Sort(rows, cmp));
    }
  }

  /**
   * Sorting rows whose original indices increase gives every pair in order
   * and keeps rows that compare equal in their original order, when the
   * comparator is a total preorder on them.
   */
  lemma {:induction false} SortSorted(rows: seq<Row>, cmp: (Row, Row) -> int)
    requires Consistent(cmp, rows)
    requires forall i, j :: 0 <= i < j < |rows| ==> rows[i].originalIndex < rows[j].originalIndex
    ensures StablySorted(cmp, Sort(rows, cmp))
  {
    if rows != [] {
      var n := |rows| - 1;
      var init := rows[..n];
      var x := rows[n];
      ConsistentSub(cmp, rows, init);
      SortSorted(init, cmp);
      var s := Sort(init, cmp);
      SortMembers(init, cmp);
      assert forall r :: r in s ==> r.originalIndex < x.originalIndex by {
        forall r | r in s
          ensures r.originalIndex < x.originalIndex
        {
          var k :| 0 <= k < n && init[k] == r;
        }
      }
      assert forall r :: r in s + [x] ==> r in rows by {
        forall r | r in s + [x]
          ensures r in rows
        {
          if r != x {
            assert r in init;
          }
        }
      }
      ConsistentSub(cmp, rows, s + [x]);
      InsertSorted(s, x, cmp);
    }
  }

  // ------------------------------------------------------ the projection

  /** The sort callback for a field and direction. */
  function Comparator(field: SortField, dir: Direction, collate: (string, string) -> int): (Row, Row) -> int {
    (a: Row, b: Row) => Compare(field, dir, collate, a, b)
  }

  /**
   * `sortedParticipantsWithIndices`: the roster with its positions, as it is
   * when no sort field is chosen, otherwise a sorted copy.
   */
  function SortedRows(ps: seq<Participant>, field: Option<SortField>, dir: Direction, collate: (string, string) -> int): seq<Row> {
    match field
      case None => WithIndices(ps)
      case Some(f) => Sort(WithIndices(ps), Comparator(f, dir, collate))
  }

  /** With no sort field the projection is the roster itself: row `i` holds participant `i`. */
  lemma UnsortedIsIdentity(ps: seq<Participant>, dir: Direction, collate: (string, string) -> int)
    ensures var r := SortedRows(ps, None, dir, collate);
      |r| == |ps| && forall i :: 0 <= i < |ps| ==> r[i].originalIndex == i && r[i].participant == ps[i]
  {
  }

  /**
   * Any projection is a permutation of the roster's rows: the same rows with
   * the same multiplicities, each row naming the position its participant
   * holds, and every position appearing.
   */
  lemma ProjectionIsPermutation(ps: seq<Participant>, field: Option<SortField>, dir: Direction, collate: (string, string) -> int)
    ensures var r := SortedRows(ps, field, dir, collate);
      |r| == |ps| && multiset(r) == multiset(WithIndices(ps)) &&
      (forall k :: 0 <= k < |r| ==> 0 <= r[k].originalIndex < |ps| && r[k].participant == ps[r[k].originalIndex]) &&
      (forall i :: 0 <= i < |ps| ==> Row(ps[i], i) in r)
  {
    var r := SortedRows(ps, field, dir, collate);
    var w := WithIndices(ps);
    assert |r| == |multiset(r)| == |multiset(w)| == |w|;
    forall k | 0 <= k < |r|
      ensures 0 <= r[k].originalIndex < |ps| && r[k].participant == ps[r[k].originalIndex]
    {
      assert r[k] in multiset(w);
    }
    forall i | 0 <= i < |ps|
      ensures Row(ps[i], i) in r
    {
      assert w[i] in multiset(r);
    }
  }

  /**
   * When the comparator is a total preorder on the roster's rows, the sorted
   * projection has every pair in order and rows that compare equal in roster
   * order.
   */
  lemma SortedRowsOrdered(ps: seq<Participant>, f: SortField, dir: Direction, collate: (string, string) -> int)
    requires Consistent(Comparator(f, dir, collate), WithIndices(ps))
    ensures StablySorted(Comparator(f, dir, collate), SortedRows(ps, Some(f), dir, collate))
  {
    SortSorted(WithIndices(ps), Comparator(f, dir, collate));
  }

  /** The role comparator is a total preorder on any rows, in either direction. */
  lemma RoleComparatorConsistent(rows: seq<Row>, dir: Direction, collate: (string, string) -> int)
    ensures Consistent(Comparator(ByRole, dir, collate), rows)
  {
  }

  /** The place comparator is a total preorder on rows none of whose places is `NaN`. */
  lemma PlaceComparatorConsistent(rows: seq<Row>, dir: Direction, collate: (string, string) -> int)
    requires forall r :: r in rows ==> r.participant.place != NotANumber
    ensures Consistent(Comparator(ByPlace, dir, collate), rows)
  {
    var cmp := Comparator(ByPlace, dir, collate);
    forall a, b | a in rows && b in rows
      ensures cmp(a, b) < 0 <==> cmp(b, a) > 0
    {
      PlaceCompareIsDifference(dir, collate, a, b);
      PlaceCompareIsDifference(dir, collate, b, a);
    }
    forall a, b, c | a in rows && b in rows && c in rows && cmp(a, b) <= 0 && cmp(b, c) <= 0
      ensures cmp(a, c) <= 0
    {
      PlaceCompareIsDifference(dir, collate, a, b);
      PlaceCompareIsDifference(dir, collate, b, c);
      PlaceCompareIsDifference(dir, collate, a, c);
    }
  }

  /** Between two rows with numeric places the place comparator is the signed difference of their keys. */
  lemma PlaceCompareIsDifference(dir: Direction, collate: (string, string) -> int, a: Row, b: Row)
    requires a.participant.place != NotANumber && b.participant.place != NotANumber
    ensures var x, y := PlaceKey(a.participant.place).value, PlaceKey(b.participant.place).value;
      Compare(ByPlace, dir, collate, a, b) == if dir == Asc then x - y else y - x
  {
  }

  /** `localeCompare` taken as a total preorder on strings. */
  ghost predicate TotalPreorder(collate: (string, string) -> int) {
    (forall a, b :: collate(a, b) < 0 <==> collate(b, a) > 0) &&
    (forall a, b, c {:trigger collate(a, b), collate(b, c)} :: collate(a, b) <= 0 && collate(b, c) <= 0 ==> collate(a, c) <= 0)
  }

  /** The name comparator is a total preorder when the collation is. */
  lemma FioComparatorConsistent(rows: seq<Row>, dir: Direction, collate: (string, string) -> int)
    requires TotalPreorder(collate)
    ensures Consistent(Comparator(ByFio, dir, collate), rows)
  {
  }

  /**
   * Sorting by role orders the rows by rank (ascending or descending) and
   * keeps rows of equal rank in roster order.
   */
  lemma RoleSortOrder(ps: seq<Participant>, dir: Direction, collate: (string, string) -> int)
    ensures var r := SortedRows(ps, Some(ByRole), dir, collate);
      forall i, j :: 0 <= i < j < |r| ==>
        var a, b := RoleRank(r[i].participant.role), RoleRank(r[j].participant.role);
        (dir == Asc ==> a <= b) && (dir == Desc ==> a >= b) && (a == b ==> r[i].originalIndex < r[j].originalIndex)
  {
    RoleComparatorConsistent(WithIndices(ps), dir, collate);
    SortedRowsOrdered(ps, ByRole, dir, collate);
  }

  /**
   * Sorting by place, when no place is `NaN`: ascending never puts an
   * unranked row before a row ranked below 999, descending never puts such a
   * ranked row before an unranked one, and equal places keep roster order.
   */
  lemma PlaceSortOrder(ps: seq<Participant>, dir: Direction, collate: (string, string) -> int)
    requires forall p :: p in ps ==> p.place != NotANumber
    ensures var r := SortedRows(ps, Some(ByPlace), dir, collate);
      forall i, j :: 0 <= i < j < |r| ==>
        var a, b := r[i].participant.place, r[j].participant.place;
        (dir == Asc ==> !(a == Absent && b.Num? && b.n < 999)) &&
        (dir == Desc ==> !(a.Num? && a.n < 999 && b == Absent)) &&
        (PlaceKey(a) == PlaceKey(b) ==> r[i].originalIndex < r[j].originalIndex)
  {
    var w := WithIndices(ps);
    forall r | r in w
      ensures r.participant.place != NotANumber
    {
      var k :| 0 <= k < |w| && w[k] == r;
    }
    PlaceComparatorConsistent(w, dir, collate);
    SortedRowsOrdered(ps, ByPlace, dir, collate);
  }

  // ---------------------------------------------------------- pagination

  /** `Math.ceil(x / k)` for a positive divisor. */
  function CeilDiv(x: int, k: int): (r: int)
    requires k >= 1
    ensures (r - 1) * k < x <= r * k
  {
    var q := (-x) / k;
    assert -x == q * k + (-x) % k;
    -q
  }

  /** `totalPages`: the number of pages of `k` rows that hold `n` rows. */
  function TotalPages(n: nat, k: nat): (r: nat)
    requires k >= 1
    ensures n == 0 <==> r == 0
    ensures (r - 1) * k < n <= r * k
  {
    CeilDiv(n, k)
  }

  /** A relative index of `Array.prototype.slice`: negative counts from the end, clamped to `[0, len]`. */
  function SliceIndex(i: int, len: nat): (r: nat)
    ensures r <= len
  {
    if i < 0 then (if len + i < 0 then 0 else len + i)
    else if i > len then len
    else i
  }

  /** `s.slice(start, end)`. */
  function Slice<T>(s: seq<T>, start: int, end: int): seq<T> {
    var a, b := SliceIndex(start, |s|), SliceIndex(end, |s|);
    if a < b then s[a..b] else []
  }

  /** `currentParticipants`: the rows of page `page`, from `startIndex = (page - 1) * k` to `startIndex + k`. */
  function PageRows<T>(rows: seq<T>, page: int, k: nat): seq<T> {
    var start := (page - 1) * k;
    Slice(rows, start, start + k)
  }

  /**
   * A page holds at most `k` rows: those from `a = (page - 1) * k` up to
   * `a + k = page * k`, cut at the end of the list.
   */
  lemma PageRowsRange<T>(rows: seq<T>, page: int, k: nat)
    requires page >= 1 && k >= 1
    ensures var a := (page - 1) * k;
      a >= 0 && |PageRows(rows, page, k)| <= k &&
      (a < |rows| ==> PageRows(rows, page, k) == rows[a..if a + k < |rows| then a + k else |rows|]) &&
      (a >= |rows| ==> PageRows(rows, page, k) == [])
  {
    assert (page - 1) * k >= 0;
  }

  /** Page `page` starts inside a list of `n` rows exactly when it is at most `totalPages`. */
  lemma PageStartInside(page: int, k: nat, n: nat)
    requires page >= 1 && k >= 1
    ensures (page - 1) * k < n <==> page <= TotalPages(n, k)
  {
    var t := TotalPages(n, k);
    if page <= t {
      MulMonotone(page - 1, t - 1, k);
    } else {
      MulMonotone(t, page - 1, k);
    }
  }

  /** A page is non-empty exactly when it is one of the `totalPages` pages. */
  lemma PageNonEmptyIff<T>(rows: seq<T>, page: int, k: nat)
    requires page >= 1 && k >= 1
    ensures |PageRows(rows, page, k)| > 0 <==> page <= TotalPages(|rows|, k)
  {
    PageRowsRange(rows, page, k);
    PageStartInside(page, k, |rows|);
  }

  lemma MulMonotone(a: int, b: int, k: nat)
    requires a <= b
    ensures a * k <= b * k
  {
    assert b * k - a * k == (b - a) * k;
  }

  /** Pages `1..m` laid end to end. */
  function PagesUpTo<T>(rows: seq<T>, k: nat, m: nat): seq<T> {
    if m == 0 then [] else PagesUpTo(rows, k, m - 1) + PageRows(rows, m, k)
  }

  /** The first `m` pages are the first `m * k` rows. */
  lemma {:induction false} PagesUpToPrefix<T>(rows: seq<T>, k: nat, m: nat)
    requires k >= 1
    ensures PagesUpTo(rows, k, m) == rows[..if m * k < |rows| then m * k else |rows|]
  {
    if m > 0 {
      PagesUpToPrefix(rows, k, m - 1);
      PageRowsRange(rows, m, k);
      assert (m - 1) * k + k == m * k;
      assert (m - 1) * k >= 0;
    }
  }

  /** All `totalPages` pages laid end to end are the whole sorted list. */
  lemma AllPages<T>(rows: seq<T>, k: nat)
    requires k >= 1
    ensures PagesUpTo(rows, k, TotalPages(|rows|, k)) == rows
  {
    PagesUpToPrefix(rows, k, TotalPages(|rows|, k));
  }

  /**
   * The "showing a - b of n" line: for a page that exists it names the page's
   * first and last row, counting from 1.
   */
  function ShowingRange(page: int, k: nat, n: nat): (int, int) {
    var start := (page - 1) * k;
    var end := start + k;
    (start + 1, if end < n then end else n)
  }

  /** The "showing" line counts exactly the rows on the page. */
  lemma ShowingMatchesPage<T>(rows: seq<T>, page: int, k: nat)
    requires k >= 1 && 1 <= page <= TotalPages(|rows|, k)
    ensures var (first, last) := ShowingRange(page, k, |rows|);
      last - first + 1 == |PageRows(rows, page, k)| >= 1
  {
    PageRowsRange(rows, page, k);
    PageStartInside(page, k, |rows|);
  }

  // ------------------------------------------------------- page buttons

  /** A page button, or the "..." shown in place of a page two away from the current one. */
  datatype PageItem = Button(page: int) | Ellipsis(page: int)

  /** What page `page` renders as: a button, an ellipsis, or nothing (`null`). */
  function WindowItem(page: int, total: nat, current: int): Option<PageItem> {
    if page == 1 || page == total || (page >= current - 1 && page <= current + 1) then Some(Button(page))
    else if page == current - 2 || page == current + 2 then Some(Ellipsis(page))
    else None
  }

  /** The items rendered for pages `1..m`, in page order, `null`s dropped. */
  function WindowUpTo(total: nat, current: int, m: nat): seq<PageItem> {
    if m == 0 then []
    else
      WindowUpTo(total, current, m - 1) +
        match WindowItem(m, total, current)
          case Some(item) => [item]
          case None => []
  }

  /** The page-button row for `totalPages` pages around `currentPage`. */
  function PageWindow(total: nat, current: int): seq<PageItem> {
    WindowUpTo(total, current, total)
  }

  /** The items for pages `1..m` are exactly those pages' items, with strictly increasing pages. */
  lemma {:induction false} WindowUpToIff(total: nat, current: int, m: nat)
    ensures var w := WindowUpTo(total, current, m);
      (forall it :: it in w <==> 1 <= it.page <= m && WindowItem(it.page, total, current) == Some(it)) &&
      (forall i, j :: 0 <= i < j < |w| ==> w[i].page < w[j].page)
  {
    if m > 0 {
      WindowUpToIff(total, current, m - 1);
    }
  }

  /**
   * A page has a button exactly when it is the first, the last, or within
   * one of the current page; the pages of the row increase.
   */
  lemma ButtonIff(total: nat, current: int, page: int)
    ensures Button(page) in PageWindow(total, current) <==>
      1 <= page <= total && (page == 1 || page == total || current - 1 <= page <= current + 1)
    ensures var w := PageWindow(total, current);
      forall i, j :: 0 <= i < j < |w| ==> w[i].page < w[j].page
  {
    WindowUpToIff(total, current, total);
  }

  /**
   * A page shows as "..." exactly when it is two away from the current page
   * and is neither the first nor the last page.
   */
  lemma EllipsisIff(total: nat, current: int, page: int)
    ensures Ellipsis(page) in PageWindow(total, current) <==>
      1 < page < total && (page == current - 2 || page == current + 2)
  {
    WindowUpToIff(total, current, total);
  }

  // ------------------------------------------- the page after bulk removal

  /**
   * The page `handleRemoveMultiple` moves to, as written: one page back when
   * the current page lies beyond `ceil((n - removed) / k)`, never more.
   */
  function PageAfterRemoval(current: int, n: nat, removed: nat, k: nat): (r: int)
    requires k >= 1
  {
    if current > 1 && current > CeilDiv(n - removed, k) then current - 1 else current
  }

  /**
   * With `remaining` the rows left, the page moves back by at most one and
   * never below 1, moves exactly when the current page no longer shows any
   * of them (page 1 excepted), and otherwise stays.
   */
  lemma PageAfterRemovalStep<T>(current: int, n: nat, removed: nat, k: nat, remaining: seq<T>)
    requires k >= 1 && current >= 1 && |remaining| == n - removed
    ensures var r := PageAfterRemoval(current, n, removed, k);
      1 <= r <= current && current - r <= 1 &&
      (r < current <==> current > 1 && |PageRows(remaining, current, k)| == 0)
  {
    PageNonEmptyIff(remaining, current, k);
  }

  /**
   * Removing 30 of 31 rows while on page 4 of 10-row pages lands on page 3,
   * yet one row makes a single page: the table shows an empty page, and with
   * one page the pagination controls are hidden.
   */
  lemma RemovalLeavesEmptyPage<T>(remaining: seq<T>)
    requires |remaining| == 1
    ensures PageAfterRemoval(4, 31, 30, 10) == 3
    ensures TotalPages(|remaining|, 10) == 1
    ensures PageRows(remaining, 3, 10) == []
  {
    assert CeilDiv(1, 10) == 1;
  }

  /** The page after removal, clamped to the pages that are left (page 1 when none are). */
  function ClampedPageAfterRemoval(current: int, n: nat, removed: nat, k: nat): (r: int)
    requires k >= 1
  {
    var t := CeilDiv(n - removed, k);
    if current > 1 && current > t then (if t >= 1 then t else 1) else current
  }

  /**
   * After clamping, the page is at least 1, unchanged when it still exists,
   * and when rows remain it is a page that shows some of them.
   */
  lemma ClampedPageShowsRows<T>(current: int, n: nat, removed: nat, k: nat, remaining: seq<T>)
    requires k >= 1 && current >= 1 && |remaining| == n - removed
    ensures var r := ClampedPageAfterRemoval(current, n, removed, k);
      1 <= r <= current &&
      (current <= TotalPages(|remaining|, k) ==> r == current) &&
      (|remaining| > 0 ==> |PageRows(remaining, r, k)| > 0)
  {
    var r := ClampedPageAfterRemoval(current, n, removed, k);
    PageNonEmptyIff(remaining, r, k);
  }
}
