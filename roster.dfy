/**
 * The roster: the participant record and the positional operations the main
 * page applies to its `participants` array (remove one, update one, remove
 * many, append). Identity is the array position; nothing is keyed by id.
 */
module Roster {

  /**
   * A participant's place. `Absent` is `undefined`, `Num` a number, and
   * `NotANumber` the `NaN` that `parseInt` yields for a cell with no leading
   * digits, which the page stores as it is.
   */
  datatype Place = Absent | Num(n: int) | NotANumber

  datatype Participant = Participant(fio: string, email: string, role: string, place: Place)

  /** The role a record gets when its role cell is empty or missing. */
  const DefaultRole: string := "участник"

  /** `xs.filter((_, i) => keep(i))`: the elements whose position `keep` accepts. */
  function FilterIndexed<T>(xs: seq<T>, keep: int -> bool): (r: seq<T>)
    ensures |r| <= |xs|
  {
    if xs == [] then []
    else
      var n := |xs| - 1;
      FilterIndexed(xs[..n], keep) + if keep(n) then [xs[n]] else []
  }

  /** The positions whose flag is set, in increasing order. */
  function KeptIndices(flags: seq<bool>): (r: seq<int>)
    ensures forall j :: 0 <= j < |r| ==> 0 <= r[j] < |flags| && flags[r[j]]
    ensures forall j, k :: 0 <= j < k < |r| ==> r[j] < r[k]
    ensures forall i :: 0 <= i < |flags| && flags[i] ==> i in r
  {
    if flags == [] then []
    else
      var n := |flags| - 1;
      KeptIndices(flags[..n]) + if flags[n] then [n] else []
  }

  /** The filter keeps exactly the elements at the accepted positions, in their original order. */
  lemma {:induction false} FilterIsKeptIndices<T>(xs: seq<T>, keep: int -> bool)
    ensures var ks := KeptIndices(seq(|xs|, keep));
      FilterIndexed(xs, keep) == seq(|ks|, j requires 0 <= j < |ks| => xs[ks[j]])
  {
    if xs != [] {
      var n := |xs| - 1;
      var prefix := xs[..n];
      FilterIsKeptIndices(prefix, keep);
      var flags := seq(|xs|, keep);
      assert flags[..n] == seq(n, keep) && flags[n] == keep(n);
      var ks0, ks := KeptIndices(seq(n, keep)), KeptIndices(flags);
      assert ks == ks0 + if keep(n) then [n] else [];
      var got0, got := FilterIndexed(prefix, keep), FilterIndexed(xs, keep);
      assert got == got0 + if keep(n) then [xs[n]] else [];
      assert |got| == |ks|;
      forall j | 0 <= j < |ks|
        ensures got[j] == xs[ks[j]]
      {
        if j < |ks0| {
          assert got[j] == got0[j] == prefix[ks0[j]] && ks[j] == ks0[j];
        }
      }
    }
  }

  /** A filter that accepts every position keeps everything. */
  lemma {:induction false} FilterKeepAll<T>(xs: seq<T>, keep: int -> bool)
    requires forall i :: 0 <= i < |xs| ==> keep(i)
    ensures FilterIndexed(xs, keep) == xs
  {
    if xs != [] {
      var n := |xs| - 1;
      FilterKeepAll(xs[..n], keep);
      assert xs[..n] + [xs[n]] == xs;
    }
  }

  /** Two filters that agree on the positions of the array give the same result. */
  lemma {:induction false} FilterEq<T>(xs: seq<T>, k1: int -> bool, k2: int -> bool)
    requires forall i :: 0 <= i < |xs| ==> k1(i) == k2(i)
    ensures FilterIndexed(xs, k1) == FilterIndexed(xs, k2)
  {
    if xs != [] {
      FilterEq(xs[..|xs| - 1], k1, k2);
    }
  }

  /** A filter that rejects exactly one position drops exactly that element. */
  lemma {:induction false} FilterDropOne<T>(xs: seq<T>, keep: int -> bool, index: int)
    requires 0 <= index < |xs| && !keep(index)
    requires forall i :: 0 <= i < |xs| && i != index ==> keep(i)
    ensures FilterIndexed(xs, keep) == xs[..index] + xs[index + 1..]
  {
    var n := |xs| - 1;
    if index == n {
      FilterKeepAll(xs[..n], keep);
    } else {
      FilterDropOne(xs[..n], keep, index);
      assert xs[..n][..index] == xs[..index];
      assert xs[..n][index + 1..] + [xs[n]] == xs[index + 1..];
    }
  }

  /** `handleRemoveParticipant`: `participants.filter((_, i) => i !== index)`. */
  function RemoveAt(ps: seq<Participant>, index: int): seq<Participant> {
    FilterIndexed(ps, i => i != index)
  }

  /** Removing one position drops exactly that element and keeps the others in order; any other index changes nothing. */
  lemma RemoveAtDropsOne(ps: seq<Participant>, index: int)
    ensures 0 <= index < |ps| ==> RemoveAt(ps, index) == ps[..index] + ps[index + 1..]
    ensures !(0 <= index < |ps|) ==> RemoveAt(ps, index) == ps
  {
    if 0 <= index < |ps| {
      FilterDropOne(ps, i => i != index, index);
    } else {
      FilterKeepAll(ps, i => i != index);
    }
  }

  /** `handleRemoveMultipleParticipants`: `participants.filter((_, i) => !indices.includes(i))`. */
  function RemoveMany(ps: seq<Participant>, indices: seq<int>): seq<Participant> {
    FilterIndexed(ps, i => i !in indices)
  }

  /**
   * Removing many keeps exactly the elements whose position is not listed, in
   * their original order: the result is `ps` read at the unlisted positions,
   * ascending.
   */
  lemma RemoveManyKeepsUnlisted(ps: seq<Participant>, indices: seq<int>)
    ensures var ks := KeptIndices(seq(|ps|, i => i !in indices));
      (forall i :: i in ks <==> 0 <= i < |ps| && i !in indices) &&
      (forall j, k :: 0 <= j < k < |ks| ==> ks[j] < ks[k]) &&
      RemoveMany(ps, indices) == seq(|ks|, j requires 0 <= j < |ks| => ps[ks[j]])
  {
    FilterIsKeptIndices(ps, i => i !in indices);
  }

  /** Listing no position, or only positions outside the array, removes nothing. */
  lemma RemoveManyOutOfRange(ps: seq<Participant>, indices: seq<int>)
    requires forall i :: i in indices ==> !(0 <= i < |ps|)
    ensures RemoveMany(ps, indices) == ps
  {
    FilterKeepAll(ps, i => i !in indices);
  }

  /** Removing one position is removing the list holding only that position. */
  lemma RemoveManySingle(ps: seq<Participant>, index: int)
    ensures RemoveMany(ps, [index]) == RemoveAt(ps, index)
  {
    assert forall i :: (i !in [index]) == (i != index);
    FilterEq(ps, i => i !in [index], i => i != index);
  }

  /** `handleUpdateParticipant`: `participants.map((p, i) => i === index ? updated : p)`. */
  function UpdateAt(ps: seq<Participant>, index: int, updated: Participant): (r: seq<Participant>)
    ensures |r| == |ps|
    ensures forall i :: 0 <= i < |ps| && i != index ==> r[i] == ps[i]
    ensures 0 <= index < |ps| ==> r[index] == updated
  {
    seq(|ps|, i requires 0 <= i < |ps| => if i == index then updated else ps[i])
  }

  /** Writing back the element already at a position changes nothing. */
  lemma UpdateSame(ps: seq<Participant>, index: int)
    requires 0 <= index < |ps|
    ensures UpdateAt(ps, index, ps[index]) == ps
  {
  }

  /** A second update of the same position overrides the first. */
  lemma UpdateTwice(ps: seq<Participant>, index: int, u: Participant, v: Participant)
    ensures UpdateAt(UpdateAt(ps, index, u), index, v) == UpdateAt(ps, index, v)
  {
  }

  /** The `onAdd` callback: `[...participants, participant]`. */
  function Append(ps: seq<Participant>, p: Participant): (r: seq<Participant>)
    ensures |r| == |ps| + 1 && r[|ps|] == p
    ensures r[..|ps|] == ps
  {
    ps + [p]
  }

  /** Removing the appended last position undoes the append. */
  lemma RemoveUndoesAppend(ps: seq<Participant>, p: Participant)
    ensures RemoveAt(Append(ps, p), |ps|) == ps
  {
    RemoveAtDropsOne(Append(ps, p), |ps|);
  }
}
