/**
 * The molecular system container: a sequence of atoms and a trajectory of
 * frames, each frame holding one coordinate per atom.  Every edit the source
 * makes in place (push_back, erase, element assignment) is a reassignment of the
 * `atoms` or `traj` field here; exceptions become a returned Outcome.
 */
module MolSystem {
  import opened Wrappers
  import opened AtomData

  datatype Frame = Frame(coord: seq<Vec3>, box: Box, time: real)

  /** The frame a default constructor yields (for a given default box). */
  function DefaultFrame(box: Box): (f: Frame)
    ensures f.coord == [] && f.time == 0.0 && f.box == box
  {
    Frame([], box, 0.0)
  }

  /** `s[ind[0]], s[ind[1]], ...` */
  function Pick<T>(s: seq<T>, ind: seq<int>): (r: seq<T>)
    requires forall i :: 0 <= i < |ind| ==> 0 <= ind[i] < |s|
    ensures |r| == |ind| && forall i :: 0 <= i < |ind| ==> r[i] == s[ind[i]]
  {
    seq(|ind|, i requires 0 <= i < |ind| => s[ind[i]])
  }

  /** The elements of `s` at the positions where `keep` is true, in order. */
  function Select<T>(s: seq<T>, keep: seq<bool>): seq<T>
    requires |keep| == |s|
  {
    if s == [] then []
    else Select(s[..|s| - 1], keep[..|s| - 1]) + (if keep[|s| - 1] then [s[|s| - 1]] else [])
  }

  /** The positions where `keep` is true, ascending. */
  function Positions(keep: seq<bool>): seq<int> {
    if keep == [] then []
    else Positions(keep[..|keep| - 1]) + (if keep[|keep| - 1] then [|keep| - 1] else [])
  }

  /** Positions lists exactly the flagged positions, ascending. */
  lemma {:induction false} PositionsExact(keep: seq<bool>)
    ensures forall j :: 0 <= j < |Positions(keep)| ==> 0 <= Positions(keep)[j] < |keep|
    ensures forall j, k :: 0 <= j < k < |Positions(keep)| ==> Positions(keep)[j] < Positions(keep)[k]
    ensures forall p :: 0 <= p < |keep| ==> (keep[p] <==> p in Positions(keep))
  {
    if keep != [] {
      var n := |keep| - 1;
      var prev := Positions(keep[..n]);
      PositionsExact(keep[..n]);
      assert Positions(keep) == prev + if keep[n] then [n] else [];
      assert n !in prev;
      forall p | 0 <= p < n ensures keep[p] <==> p in Positions(keep) {
        assert keep[..n][p] == keep[p];
      }
    }
  }

  /**
   * Select keeps exactly the flagged positions, in their original order: its
   * j-th element is the element at the j-th flagged position.
   */
  lemma {:induction false} SelectAtPositions<T>(s: seq<T>, keep: seq<bool>)
    requires |keep| == |s|
    ensures |Select(s, keep)| == |Positions(keep)|
    ensures forall j :: 0 <= j < |Positions(keep)| ==>
      0 <= Positions(keep)[j] < |s| && Select(s, keep)[j] == s[Positions(keep)[j]]
  {
    PositionsExact(keep);
    if s != [] {
      var n := |s| - 1;
      SelectAtPositions(s[..n], keep[..n]);
      PositionsExact(keep[..n]);
      var prev := Positions(keep[..n]);
      assert Positions(keep) == prev + if keep[n] then [n] else [];
      assert Select(s, keep) == Select(s[..n], keep[..n]) + if keep[n] then [s[n]] else [];
      forall j | 0 <= j < |prev| ensures Select(s, keep)[j] == s[Positions(keep)[j]] {
        assert Select(s, keep)[j] == Select(s[..n], keep[..n])[j] == s[..n][prev[j]];
      }
    }
  }

  /** Selecting by one mask from two equally long sequences gives equally long results. */
  lemma {:induction false} SelectSameLength<T, U>(s: seq<T>, t: seq<U>, keep: seq<bool>)
    requires |s| == |t| == |keep|
    ensures |Select(s, keep)| == |Select(t, keep)|
  {
    if s != [] {
      var n := |s| - 1;
      SelectSameLength(s[..n], t[..n], keep[..n]);
    }
  }

  /** Two neighbouring atoms stay in one residue when resid and chain agree. */
  predicate SameResidue(a: Atom, b: Atom) {
    a.resid == b.resid && a.chain == b.chain
  }

  /**
   * The resindex rule: only resindex changes, the first atom gets 0, and each
   * later atom gets its predecessor's value plus one exactly when its resid or
   * chain differs from the predecessor's.
   */
  predicate ResindexAssigned(before: seq<Atom>, after: seq<Atom>) {
    && |after| == |before|
    && (forall i :: 0 <= i < |before| ==> after[i] == before[i].(resindex := after[i].resindex))
    && (|after| > 0 ==> after[0].resindex == 0)
    && (forall i :: 0 < i < |after| ==>
          after[i].resindex == after[i - 1].resindex + if SameResidue(before[i - 1], before[i]) then 0 else 1)
  }

  /**
   * Under the resindex rule resindex never decreases, and two atoms share a
   * resindex exactly when no residue boundary lies between them.
   */
  lemma {:induction false} ResindexRuns(before: seq<Atom>, after: seq<Atom>, i: int, j: int)
    requires ResindexAssigned(before, after)
    requires 0 <= i <= j < |after|
    ensures after[i].resindex <= after[j].resindex
    ensures after[i].resindex == after[j].resindex <==>
      forall k :: i < k <= j ==> SameResidue(before[k - 1], before[k])
    decreases j - i
  {
    if i < j {
      ResindexRuns(before, after, i, j - 1);
      if !SameResidue(before[j - 1], before[j]) {
        assert after[j].resindex == after[j - 1].resindex + 1;
      }
    }
  }

  /** The resindex key of every atom. */
  function Keys(atoms: seq<Atom>): (k: seq<int>)
    ensures |k| == |atoms| && forall i :: 0 <= i < |atoms| ==> k[i] == atoms[i].resindex
  {
    seq(|atoms|, i requires 0 <= i < |atoms| => atoms[i].resindex)
  }

  predicate InRange(s: seq<int>, n: int) {
    forall i :: 0 <= i < |s| ==> 0 <= s[i] < n
  }

  predicate SortedByKey(s: seq<int>, key: seq<int>)
    requires InRange(s, |key|)
  {
    forall i, j :: 0 <= i < j < |s| ==> key[s[i]] <= key[s[j]]
  }

  /** Inserts index `x` in front of the first index whose key is not smaller than its own. */
  function InsertByKey(x: int, s: seq<int>, key: seq<int>): (r: seq<int>)
    requires 0 <= x < |key| && InRange(s, |key|) && SortedByKey(s, key)
    ensures InRange(r, |key|) && SortedByKey(r, key)
    ensures multiset(r) == multiset(s) + multiset{x}
  {
    if s == [] || key[x] <= key[s[0]] then
      [x] + s
    else
      var rest := InsertByKey(x, s[1..], key);
      assert s == [s[0]] + s[1..];
      InsertBound(x, s, key, rest);
      [s[0]] + rest
  }

  lemma InsertBound(x: int, s: seq<int>, key: seq<int>, rest: seq<int>)
    requires 0 <= x < |key| && s != [] && InRange(s, |key|) && SortedByKey(s, key) && key[s[0]] < key[x]
    requires InRange(rest, |key|) && SortedByKey(rest, key)
    requires multiset(rest) == multiset(s[1..]) + multiset{x}
    ensures SortedByKey([s[0]] + rest, key)
  {
    forall k | 0 <= k < |rest| ensures key[s[0]] <= key[rest[k]] {
      assert rest[k] in multiset(rest);
      if rest[k] != x {
        assert rest[k] in s[1..];
        var m :| 0 <= m < |s[1..]| && s[1..][m] == rest[k];
        assert s[1..][m] == s[m + 1];
      }
    }
    var t := [s[0]] + rest;
    forall i, j | 0 <= i < j < |t| ensures key[t[i]] <= key[t[j]] {
      if i > 0 { assert t[i] == rest[i - 1]; }
      assert t[j] == rest[j - 1];
    }
  }

  /**
   * An index permutation that orders by key.  std::sort is not stable, so equal
   * keys may come out in any order; this is one of the orders it may produce.
   */
  function SortByKey(s: seq<int>, key: seq<int>): (r: seq<int>)
    requires InRange(s, |key|)
    ensures InRange(r, |key|) && SortedByKey(r, key) && multiset(r) == multiset(s)
  {
    if s == [] then []
    else
      assert s == [s[0]] + s[1..];
      InsertByKey(s[0], SortByKey(s[1..], key), key)
  }

  function Iota(n: nat): (r: seq<int>)
    ensures |r| == n && forall i :: 0 <= i < n ==> r[i] == i
  {
    seq(n, i => i)
  }

  /** The order sort_by_resindex puts the atoms in. */
  function ResindexOrder(atoms: seq<Atom>): (ind: seq<int>)
    ensures InRange(ind, |atoms|) && multiset(ind) == multiset(Iota(|atoms|))
    ensures |ind| == |atoms|
    ensures forall i, j :: 0 <= i < j < |ind| ==> atoms[ind[i]].resindex <= atoms[ind[j]].resindex
  {
    var ind := SortByKey(Iota(|atoms|), Keys(atoms));
    assert |ind| == |multiset(ind)| == |atoms|;
    ind
  }

  /** The index check atoms_dup and atoms_delete evidently intend: a non-empty list of existing atoms. */
  predicate IndicesValid(ind: seq<int>, n: int) {
    |ind| > 0 && forall i :: 0 <= i < |ind| ==> 0 <= ind[i] < n
  }

  /**
   * The index check of atoms_dup/atoms_delete as written: `ind[i] > atoms.size()-1`
   * compares against an unsigned size, so with no atoms `size()-1` wraps to the
   * largest value and every non-negative index passes.
   */
  predicate IndicesValidAsWritten(ind: seq<int>, n: nat) {
    |ind| > 0 && forall i :: 0 <= i < |ind| ==> 0 <= ind[i] && ind[i] <= (n - 1) % 0x1_0000_0000_0000_0000
  }

  /** On an empty system the written check lets index 0 through, although no atom 0 exists. */
  lemma IndexGuardAcceptsMissingAtom()
    ensures IndicesValidAsWritten([0], 0) && !IndicesValid([0], 0)
  {
    assert [0][0] == 0;
  }

  /** With at least one atom the written check and the intended one agree. */
  lemma IndexGuardAgreesWhenNonEmpty(ind: seq<int>, n: nat)
    requires 0 < n < 0x1_0000_0000_0000_0000
    ensures IndicesValidAsWritten(ind, n) <==> IndicesValid(ind, n)
  {
  }

  /** The atoms with the listed ones given mass -1. */
  function Marked(atoms: seq<Atom>, ind: seq<int>): (m: seq<Atom>)
    ensures |m| == |atoms|
  {
    seq(|atoms|, k requires 0 <= k < |atoms| => if k in ind then atoms[k].(mass := -1.0) else atoms[k])
  }

  /** Which atoms atoms_delete keeps: those with non-negative mass after marking. */
  function KeepMask(atoms: seq<Atom>): (keep: seq<bool>)
    ensures |keep| == |atoms| && forall k :: 0 <= k < |atoms| ==> keep[k] == (atoms[k].mass >= 0.0)
  {
    seq(|atoms|, k requires 0 <= k < |atoms| => atoms[k].mass >= 0.0)
  }

  /** The survivors of atoms_delete: not listed, and not already of negative mass. */
  function Survivors(atoms: seq<Atom>, ind: seq<int>): (keep: seq<bool>)
    ensures |keep| == |atoms|
    ensures forall k :: 0 <= k < |atoms| ==> (keep[k] <==> k !in ind && atoms[k].mass >= 0.0)
  {
    KeepMask(Marked(atoms, ind))
  }

  /** Keeping the marked survivors yields the unmarked atoms at those positions. */
  lemma {:induction false} SelectMarked(atoms: seq<Atom>, ind: seq<int>)
    ensures Select(Marked(atoms, ind), Survivors(atoms, ind)) == Select(atoms, Survivors(atoms, ind))
    decreases |atoms|
  {
    if atoms != [] {
      var n := |atoms| - 1;
      var m, keep := Marked(atoms, ind), Survivors(atoms, ind);
      assert m[..n] == Marked(atoms[..n], ind);
      assert keep[..n] == Survivors(atoms[..n], ind);
      SelectMarked(atoms[..n], ind);
    }
  }

  /** A frame with its coordinate list replaced. */
  function WithCoord(f: Frame, c: seq<Vec3>): Frame {
    f.(coord := c)
  }

  class System {
    var atoms: seq<Atom>
    var traj: seq<Frame>

    /** Every frame holds one coordinate per atom. */
    ghost predicate Valid()
      reads this
    {
      forall fr :: 0 <= fr < |traj| ==> |traj[fr].coord| == |atoms|
    }

    constructor ()
      ensures Valid() && atoms == [] && traj == []
    {
      atoms := [];
      traj := [];
    }

    function NumFrames(): (n: int)
      reads this
      ensures n == |traj|
    {
      |traj|
    }

    function NumAtoms(): (n: int)
      reads this
      ensures n == |atoms|
    {
      |atoms|
    }

    function FrameData(fr: int): Frame
      reads this
      requires 0 <= fr < |traj|
    {
      traj[fr]
    }

    function BoxOf(fr: int): (b: Box)
      reads this
      requires 0 <= fr < |traj|
      ensures b == FrameData(fr).box
    {
      traj[fr].box
    }

    function Time(fr: int): (t: real)
      reads this
      requires 0 <= fr < |traj|
      ensures t == FrameData(fr).time
    {
      traj[fr].time
    }

    function XYZ(ind: int, fr: int): (v: Vec3)
      reads this
      requires Valid() && 0 <= fr < |traj| && 0 <= ind < |atoms|
      ensures v == FrameData(fr).coord[ind]
    {
      traj[fr].coord[ind]
    }

    function AtomAt(ind: int): (a: Atom)
      reads this
      requires 0 <= ind < |atoms|
      ensures a == atoms[ind]
    {
      atoms[ind]
    }

    method FrameDup(fr: int) returns (r: Outcome)
      requires Valid()
      modifies this
      ensures Valid() && atoms == old(atoms)
      ensures r == Pass <==> 0 <= fr < |old(traj)|
      ensures r == Pass ==> traj == old(traj) + [old(traj)[fr]]
      ensures r != Pass ==> traj == old(traj) && r == Fail("Invalid frame for duplication!")
    {
      if fr < 0 || fr >= |traj| {
        return Fail("Invalid frame for duplication!");
      }
      traj := traj + [traj[fr]];
      r := Pass;
    }

    method FrameCopy(fr1: int, fr2: int) returns (r: Outcome)
      requires Valid()
      modifies this
      ensures Valid() && atoms == old(atoms)
      ensures r == Pass <==> 0 <= fr1 < |old(traj)| && 0 <= fr2 < |old(traj)|
      ensures r == Pass ==> traj == old(traj)[fr2 := old(traj)[fr1]]
      ensures r != Pass ==> traj == old(traj) && r == Fail("Invalid frame for copying!")
    {
      if fr1 < 0 || fr1 >= |traj| || fr2 < 0 || fr2 >= |traj| {
        return Fail("Invalid frame for copying!");
      }
      traj := traj[fr2 := traj[fr1]];
      r := Pass;
    }

    /**
     * Deletes frames b..e inclusive; e == -1 stands for the last frame, which
     * is also the default of e (and 0 the default of b).
     */
    method FrameDelete(b: int, e: int) returns (r: Outcome)
      requires Valid()
      modifies this
      ensures Valid() && atoms == old(atoms)
      ensures var last := if e == -1 then |old(traj)| - 1 else e;
        && (r == Pass <==> 0 <= b <= last <= |old(traj)| - 1)
        && (r == Pass ==> traj == old(traj)[..b] + old(traj)[last + 1..])
        && (r != Pass ==> traj == old(traj) && r == Fail("Invalid frame range for deletion"))
    {
      var last := e;
      if last == -1 { last := NumFrames() - 1; }
      if last < b || b < 0 || last > NumFrames() - 1 {
        return Fail("Invalid frame range for deletion");
      }
      // the two iterator walks of the source, as positions
      var i := 0;
      var bIt := 0;
      while i < b
        invariant 0 <= i <= b && bIt == i
      {
        bIt := bIt + 1;
        i := i + 1;
      }
      var eIt := bIt;
      while i < last
        invariant b <= i <= last && eIt == i
      {
        eIt := eIt + 1;
        i := i + 1;
      }
      eIt := eIt + 1;
      traj := traj[..bIt] + traj[eIt..];
      r := Pass;
    }

    /**
     * Appends the frame unchecked: `load` appends an empty frame while atoms
     * exist and reads the coordinates into it afterwards.  The system stays
     * valid exactly when it was and the frame has one coordinate per atom.
     */
    method FrameAppend(fr: Frame)
      modifies this
      ensures atoms == old(atoms) && traj == old(traj) + [fr]
      ensures Valid() <==> old(Valid()) && |fr.coord| == |atoms|
    {
      traj := traj + [fr];
      assert traj[|traj| - 1] == fr;
      assert forall i :: 0 <= i < |old(traj)| ==> traj[i] == old(traj)[i];
    }

    method AssignResindex()
      requires |atoms| > 0
      modifies this
      ensures ResindexAssigned(old(atoms), atoms) && traj == old(traj)
    {
      ghost var before := atoms;
      var curres := atoms[0].resid;
      var curchain := atoms[0].chain;
      var cur := 0;
      var i := 0;
      while i < |atoms|
        invariant 0 <= i <= |atoms| == |before|
        invariant i > 0 ==> curres == before[i - 1].resid && curchain == before[i - 1].chain
        invariant i == 0 ==> curres == before[0].resid && curchain == before[0].chain
        invariant i > 0 ==> cur == atoms[i - 1].resindex
        invariant i == 0 ==> cur == 0
        invariant forall k :: i <= k < |atoms| ==> atoms[k] == before[k]
        invariant ResindexAssigned(before[..i], atoms[..i])
        invariant traj == old(traj)
      {
        if atoms[i].resid != curres || atoms[i].chain != curchain {
          cur := cur + 1;
          curres := atoms[i].resid;
          curchain := atoms[i].chain;
        }
        atoms := atoms[i := atoms[i].(resindex := cur)];
        i := i + 1;
      }
      assert before[..i] == before && atoms[..i] == atoms;
    }
    /** Reorders atoms, and every frame's coordinates, by one permutation sorting resindex. */
    method SortByResindex()
      requires Valid()
      modifies this
      ensures Valid()
      ensures var ind := ResindexOrder(old(atoms));
        && atoms == Pick(old(atoms), ind)
        && |traj| == |old(traj)|
        && forall fr :: 0 <= fr < |traj| ==> traj[fr] == WithCoord(old(traj)[fr], Pick(old(traj)[fr].coord, ind))
    {
      var ind := ResindexOrder(atoms);
      atoms := Permuted(atoms, ind);
      var j := 0;
      while j < |traj|
        invariant 0 <= j <= |traj| == |old(traj)|
        invariant atoms == Pick(old(atoms), ind)
        invariant forall fr :: 0 <= fr < j ==> traj[fr] == WithCoord(old(traj)[fr], Pick(old(traj)[fr].coord, ind))
        invariant forall fr :: j <= fr < |traj| ==> traj[fr] == old(traj)[fr]
      {
        var c := Permuted(traj[j].coord, ind);
        traj := traj[j := WithCoord(traj[j], c)];
        j := j + 1;
      }
    }

    /**
     * Appends copies of the listed atoms, in list order, and in every frame
     * copies of their coordinates.  `first` and `last` are the range of new
     * atoms the source hands to the optional result selection.
     */
    method AtomsDup(ind: seq<int>) returns (r: Outcome, first: int, last: int)
      requires Valid()
      modifies this
      ensures Valid()
      ensures r == Pass <==> IndicesValid(ind, |old(atoms)|)
      ensures r == Pass ==>
        && atoms == old(atoms) + Pick(old(atoms), ind)
        && |traj| == |old(traj)|
        && (forall fr :: 0 <= fr < |traj| ==>
              traj[fr] == WithCoord(old(traj)[fr], old(traj)[fr].coord + Pick(old(traj)[fr].coord, ind)))
        && first == |old(atoms)| && last == |old(atoms)| + |ind| - 1
      ensures r != Pass ==> atoms == old(atoms) && traj == old(traj)
      ensures r != Pass ==>
        r == if ind == [] then Fail("No atoms to duplicate!") else Fail("Invalid index for atom duplication!")
    {
      first, last := 0, 0;
      if |ind| == 0 {
        return Fail("No atoms to duplicate!"), first, last;
      }
      var ok := IndicesExist(ind, |atoms|);
      if !ok {
        return Fail("Invalid index for atom duplication!"), first, last;
      }
      var i := 0;
      first, last := |atoms|, |atoms| + |ind| - 1;
      i := 0;
      while i < |ind|
        invariant 0 <= i <= |ind|
        invariant atoms == old(atoms) + Pick(old(atoms), ind[..i])
        invariant |traj| == |old(traj)|
        invariant forall fr :: 0 <= fr < |traj| ==>
          traj[fr] == WithCoord(old(traj)[fr], old(traj)[fr].coord + Pick(old(traj)[fr].coord, ind[..i]))
      {
        assert Pick(old(atoms), ind[..i + 1]) == Pick(old(atoms), ind[..i]) + [old(atoms)[ind[i]]];
        atoms := atoms + [atoms[ind[i]]];
        var j := 0;
        while j < |traj|
          invariant 0 <= j <= |traj| == |old(traj)|
          invariant atoms == old(atoms) + Pick(old(atoms), ind[..i + 1])
          invariant forall fr :: 0 <= fr < j ==>
            traj[fr] == WithCoord(old(traj)[fr], old(traj)[fr].coord + Pick(old(traj)[fr].coord, ind[..i + 1]))
          invariant forall fr :: j <= fr < |traj| ==>
            traj[fr] == WithCoord(old(traj)[fr], old(traj)[fr].coord + Pick(old(traj)[fr].coord, ind[..i]))
        {
          ghost var c := old(traj)[j].coord;
          assert Pick(c, ind[..i + 1]) == Pick(c, ind[..i]) + [c[ind[i]]];
          traj := traj[j := WithCoord(traj[j], traj[j].coord + [traj[j].coord[ind[i]]])];
          j := j + 1;
        }
        i := i + 1;
      }
      assert ind[..i] == ind;
      r := Pass;
    }

    /** Appends the given atoms and, in every frame, the given coordinates. */
    method AtomsAdd(atm: seq<Atom>, crd: seq<Vec3>) returns (r: Outcome, first: int, last: int)
      requires Valid()
      modifies this
      ensures Valid()
      ensures r == Pass <==> |atm| > 0 && |atm| == |crd|
      ensures r == Pass ==>
        && atoms == old(atoms) + atm
        && |traj| == |old(traj)|
        && (forall fr :: 0 <= fr < |traj| ==> traj[fr] == WithCoord(old(traj)[fr], old(traj)[fr].coord + crd))
        && first == |old(atoms)| && last == |old(atoms)| + |atm| - 1
      ensures r != Pass ==> atoms == old(atoms) && traj == old(traj)
      ensures r != Pass ==>
        r == if atm == [] then Fail("No atoms to add!") else Fail("Wrong number of coordinates for adding atoms!")
    {
      first, last := 0, 0;
      if |atm| == 0 {
        return Fail("No atoms to add!"), first, last;
      }
      if |atm| != |crd| {
        return Fail("Wrong number of coordinates for adding atoms!"), first, last;
      }
      first, last := |atoms|, |atoms| + |atm| - 1;
      var i := 0;
      while i < |atm|
        invariant 0 <= i <= |atm|
        invariant atoms == old(atoms) + atm[..i]
        invariant |traj| == |old(traj)|
        invariant forall fr :: 0 <= fr < |traj| ==> traj[fr] == WithCoord(old(traj)[fr], old(traj)[fr].coord + crd[..i])
      {
        assert atm[..i + 1] == atm[..i] + [atm[i]];
        assert crd[..i + 1] == crd[..i] + [crd[i]];
        atoms := atoms + [atm[i]];
        var j := 0;
        while j < |traj|
          invariant 0 <= j <= |traj| == |old(traj)|
          invariant atoms == old(atoms) + atm[..i + 1]
          invariant forall fr :: 0 <= fr < j ==> traj[fr] == WithCoord(old(traj)[fr], old(traj)[fr].coord + crd[..i + 1])
          invariant forall fr :: j <= fr < |traj| ==> traj[fr] == WithCoord(old(traj)[fr], old(traj)[fr].coord + crd[..i])
        {
          traj := traj[j := WithCoord(traj[j], traj[j].coord + [crd[i]])];
          j := j + 1;
        }
        i := i + 1;
      }
      assert atm[..i] == atm && crd[..i] == crd;
      r := Pass;
    }

    /**
     * Deletes the listed atoms by marking them with mass -1 and keeping the
     * atoms of non-negative mass; the same positions go from every frame.
     */
    method AtomsDelete(ind: seq<int>) returns (r: Outcome)
      requires Valid()
      modifies this
      ensures Valid()
      ensures r == Pass <==> IndicesValid(ind, |old(atoms)|)
      ensures r == Pass ==>
        && atoms == Select(old(atoms), Survivors(old(atoms), ind))
        && |traj| == |old(traj)|
        && forall fr :: 0 <= fr < |traj| ==>
             traj[fr] == WithCoord(old(traj)[fr], Select(old(traj)[fr].coord, Survivors(old(atoms), ind)))
      ensures r != Pass ==> atoms == old(atoms) && traj == old(traj)
      ensures r != Pass ==>
        r == if ind == [] then Fail("No atoms to delete!") else Fail("Invalid index for atom deletion!")
    {
      if |ind| == 0 {
        return Fail("No atoms to delete!");
      }
      var ok := IndicesExist(ind, |atoms|);
      if !ok {
        return Fail("Invalid index for atom deletion!");
      }
      ghost var keep := Survivors(old(atoms), ind);
      atoms := MarkedForDeletion(atoms, ind);
      var tmp := atoms;
      assert KeepMask(tmp) == keep;
      atoms := Kept(tmp, KeepMask(tmp));
      SelectMarked(old(atoms), ind);
      var fr := 0;
      while fr < |traj|
        invariant 0 <= fr <= |traj| == |old(traj)|
        invariant atoms == Select(old(atoms), keep)
        invariant forall f :: 0 <= f < fr ==> traj[f] == WithCoord(old(traj)[f], Select(old(traj)[f].coord, keep))
        invariant forall f :: 0 <= f < fr ==> |traj[f].coord| == |atoms|
        invariant forall f :: fr <= f < |traj| ==> traj[f] == old(traj)[f]
      {
        var c := Kept(traj[fr].coord, KeepMask(tmp));
        SelectSameLength(old(traj)[fr].coord, old(atoms), keep);
        traj := traj[fr := WithCoord(traj[fr], c)];
        fr := fr + 1;
      }
      r := Pass;
    }

    /** Appends another system's atoms and, frame by frame, its coordinates, then reassigns resindex. */
    method AppendSystem(other: System) returns (r: Outcome)
      requires Valid() && other.Valid() && other != this
      requires |traj| == |other.traj| ==> |atoms| + |other.atoms| > 0
      modifies this
      ensures Valid()
      ensures r == Pass <==> |old(traj)| == |other.traj|
      ensures r == Pass ==>
        && ResindexAssigned(old(atoms) + other.atoms, atoms)
        && |traj| == |old(traj)|
        && forall fr :: 0 <= fr < |traj| ==> traj[fr] == WithCoord(old(traj)[fr], old(traj)[fr].coord + other.traj[fr].coord)
      ensures r != Pass ==>
        atoms == old(atoms) && traj == old(traj) && r == Fail("Can't merge systems with different number of frames!")
    {
      if NumFrames() != other.NumFrames() {
        return Fail("Can't merge systems with different number of frames!");
      }
      atoms := atoms + other.atoms;
      var fr := 0;
      while fr < |traj|
        invariant 0 <= fr <= |traj| == |old(traj)|
        invariant atoms == old(atoms) + other.atoms
        invariant forall f :: 0 <= f < fr ==> traj[f] == WithCoord(old(traj)[f], old(traj)[f].coord + other.traj[f].coord)
        invariant forall f :: fr <= f < |traj| ==> traj[f] == old(traj)[f]
      {
        traj := traj[fr := WithCoord(traj[fr], traj[fr].coord + other.traj[fr].coord)];
        fr := fr + 1;
      }
      AssignResindex();
      r := Pass;
    }

    /**
     * Appends the atoms of a selection (the atoms `index` of system `owner`,
     * which may be this system) and their coordinates in every frame, then
     * reassigns resindex.
     */
    method AppendSelection(owner: System, index: seq<int>) returns (r: Outcome)
      requires Valid() && owner.Valid() && InRange(index, |owner.atoms|)
      requires |traj| == |owner.traj| ==> |atoms| + |index| > 0
      modifies this
      ensures Valid()
      ensures r == Pass <==> |old(traj)| == |old(owner.traj)|
      ensures r == Pass ==>
        && ResindexAssigned(old(atoms) + Pick(old(owner.atoms), index), atoms)
        && |traj| == |old(traj)|
        && forall fr :: 0 <= fr < |traj| ==>
             traj[fr] == WithCoord(old(traj)[fr], old(traj)[fr].coord + Pick(old(owner.traj)[fr].coord, index))
      ensures r != Pass ==>
        atoms == old(atoms) && traj == old(traj) && r == Fail("Can't merge systems with different number of frames!")
    {
      if NumFrames() != owner.NumFrames() {
        return Fail("Can't merge systems with different number of frames!");
      }
      var picked := Picked(owner.atoms, index);
      atoms := atoms + picked;
      var fr := 0;
      while fr < |traj|
        invariant 0 <= fr <= |traj| == |old(traj)| == |old(owner.traj)|
        invariant atoms == old(atoms) + Pick(old(owner.atoms), index)
        invariant owner != this ==> owner.traj == old(owner.traj) && owner.atoms == old(owner.atoms)
        invariant forall f :: 0 <= f < fr ==>
          traj[f] == WithCoord(old(traj)[f], old(traj)[f].coord + Pick(old(owner.traj)[f].coord, index))
        invariant forall f :: fr <= f < |traj| ==> traj[f] == old(traj)[f]
      {
        assert owner.traj[fr] == old(owner.traj)[fr];
        var c := Picked(owner.traj[fr].coord, index);
        traj := traj[fr := WithCoord(traj[fr], traj[fr].coord + c)];
        fr := fr + 1;
      }
      AssignResindex();
      r := Pass;
    }
  }

  /**
   * The sanity-check loop of atoms_dup and atoms_delete, comparing the index
   * with `n - 1` as signed integers (see IndicesValidAsWritten for the
   * unsigned comparison the source makes).
   */
  method IndicesExist(ind: seq<int>, n: int) returns (ok: bool)
    ensures ok <==> forall k :: 0 <= k < |ind| ==> 0 <= ind[k] < n
  {
    var i := 0;
    while i < |ind|
      invariant 0 <= i <= |ind|
      invariant forall k :: 0 <= k < i ==> 0 <= ind[k] < n
    {
      if ind[i] < 0 || ind[i] > n - 1 {
        return false;
      }
      i := i + 1;
    }
    return true;
  }

  /** The marking loop of atoms_delete: mass -1 on every listed atom. */
  method MarkedForDeletion(atoms: seq<Atom>, ind: seq<int>) returns (m: seq<Atom>)
    requires InRange(ind, |atoms|)
    ensures m == Marked(atoms, ind)
  {
    m := atoms;
    var i := 0;
    while i < |ind|
      invariant 0 <= i <= |ind|
      invariant m == Marked(atoms, ind[..i])
    {
      MarkStep(atoms, ind, i);
      m := m[ind[i] := m[ind[i]].(mass := -1.0)];
      i := i + 1;
    }
    assert ind[..i] == ind;
  }

  /** The loop `c[i] = tmp[ind[i]]` over a copy of `tmp`. */
  method Permuted<T>(tmp: seq<T>, ind: seq<int>) returns (c: seq<T>)
    requires |ind| == |tmp| && InRange(ind, |tmp|)
    ensures c == Pick(tmp, ind)
  {
    c := tmp;
    var i := 0;
    while i < |ind|
      invariant 0 <= i <= |ind| == |c|
      invariant forall k :: 0 <= k < i ==> c[k] == tmp[ind[k]]
    {
      c := c[i := tmp[ind[i]]];
      i := i + 1;
    }
  }

  /** The loop pushing `tmp[i]` for every flagged position i, in order. */
  method Kept<T>(tmp: seq<T>, keep: seq<bool>) returns (c: seq<T>)
    requires |keep| == |tmp|
    ensures c == Select(tmp, keep)
  {
    c := [];
    var i := 0;
    while i < |tmp|
      invariant 0 <= i <= |tmp|
      invariant c == Select(tmp[..i], keep[..i])
    {
      assert tmp[..i + 1][..i] == tmp[..i] && keep[..i + 1][..i] == keep[..i];
      if keep[i] {
        c := c + [tmp[i]];
      }
      i := i + 1;
    }
    assert tmp[..i] == tmp && keep[..i] == keep;
  }

  /** The loop pushing `src[index[i]]` for i in order. */
  method Picked<T>(src: seq<T>, index: seq<int>) returns (c: seq<T>)
    requires InRange(index, |src|)
    ensures c == Pick(src, index)
  {
    c := [];
    var i := 0;
    while i < |index|
      invariant 0 <= i <= |index|
      invariant c == Pick(src, index[..i])
    {
      c := c + [src[index[i]]];
      i := i + 1;
    }
    assert index[..i] == index;
  }

  /** Marking one more listed atom extends the marking of the list prefix. */
  lemma MarkStep(atoms: seq<Atom>, ind: seq<int>, i: int)
    requires 0 <= i < |ind| && 0 <= ind[i] < |atoms|
    ensures Marked(atoms, ind[..i + 1]) ==
      Marked(atoms, ind[..i])[ind[i] := Marked(atoms, ind[..i])[ind[i]].(mass := -1.0)]
  {
    assert forall k :: k in ind[..i + 1] <==> k in ind[..i] || k == ind[i];
  }
}
