/** Link indices of a signalised intersection.

    The lane links of all road links, taken road link by road link, are
    numbered 0, 1, 2, ...; road link `r` owns the contiguous block that
    starts at `Offset(links, r)`. These functions are the reference
    description of that numbering. */
module LinkIndex {
  import CF = CityFlow

  /** The number of lane links across `links`. */
  function TotalLaneLinks(links: seq<CF.RoadLink>): nat
    decreases |links|
  {
    if |links| == 0 then 0
    else TotalLaneLinks(links[..|links| - 1]) + |links[|links| - 1].laneLinks|
  }

  /** The link index of the first lane link of road link `r`. */
  function Offset(links: seq<CF.RoadLink>, r: nat): nat
    requires r <= |links|
  {
    TotalLaneLinks(links[..r])
  }

  lemma OffsetStep(links: seq<CF.RoadLink>, r: nat)
    requires r < |links|
    ensures Offset(links, r + 1) == Offset(links, r) + |links[r].laneLinks|
  {
    assert links[..r + 1][..r] == links[..r];
  }

  lemma OffsetEnds(links: seq<CF.RoadLink>)
    ensures Offset(links, 0) == 0
    ensures Offset(links, |links|) == TotalLaneLinks(links)
  {
    assert links[..|links|] == links;
  }

  /** Offsets do not depend on the road links after the one asked about. */
  lemma OffsetOfPrefix(links: seq<CF.RoadLink>, m: nat, r: nat)
    requires r <= m <= |links|
    ensures Offset(links[..m], r) == Offset(links, r)
  {
    assert links[..m][..r] == links[..r];
  }

  /** The block of road link `a` ends at or before the start of any later
      road link's block. */
  lemma {:induction false} OffsetMonotone(links: seq<CF.RoadLink>, a: nat, b: nat)
    requires a < b <= |links|
    ensures Offset(links, a) + |links[a].laneLinks| <= Offset(links, b)
    decreases b - a
  {
    OffsetStep(links, a);
    if a + 1 < b {
      OffsetMonotone(links, a + 1, b);
    }
  }

  /** The road link whose block contains link index `k`. */
  function OwnerOf(links: seq<CF.RoadLink>, k: nat): (r: nat)
    requires k < TotalLaneLinks(links)
    ensures r < |links|
    ensures Offset(links, r) <= k < Offset(links, r) + |links[r].laneLinks|
    decreases |links|
  {
    var last := |links| - 1;
    OffsetStep(links, last);
    OffsetEnds(links);
    if k >= Offset(links, last) then last
    else
      var r := OwnerOf(links[..last], k);
      OffsetOfPrefix(links, last, r);
      r
  }

  /** Link index `k` lies in the block of road link `r` only when `r` is
      its owner. */
  lemma OwnerUnique(links: seq<CF.RoadLink>, k: nat, r: nat)
    requires r < |links|
    requires Offset(links, r) <= k < Offset(links, r) + |links[r].laneLinks|
    ensures k < TotalLaneLinks(links)
    ensures OwnerOf(links, k) == r
  {
    OffsetStep(links, r);
    if r + 1 < |links| {
      OffsetMonotone(links, r + 1, |links|);
    }
    OffsetEnds(links);
    var o := OwnerOf(links, k);
    if o < r {
      OffsetMonotone(links, o, r);
    } else if r < o {
      OffsetMonotone(links, r, o);
    }
  }

  /** The `len` consecutive integers starting at `start`. */
  function Block(start: int, len: nat): (b: seq<int>)
    ensures |b| == len
    ensures forall j :: 0 <= j < len ==> b[j] == start + j
  {
    seq(len, j => start + j)
  }

  lemma BlockSnoc(start: int, len: nat)
    ensures Block(start, len) + [start + len] == Block(start, len + 1)
  {
  }

  /** `roadToLaneLinks` as the reference numbering gives it: road link `r`
      owns the indices `Offset(links, r) + j` of its lane links `j`. */
  function Groups(links: seq<CF.RoadLink>): (g: seq<seq<int>>)
    ensures |g| == |links|
    ensures forall r :: 0 <= r < |links| ==> |g[r]| == |links[r].laneLinks|
  {
    seq(|links|, r requires 0 <= r < |links| => Block(Offset(links, r), |links[r].laneLinks|))
  }

  /** Link index `k` is in road link `r`'s group exactly when `r` owns it:
      the groups are pairwise disjoint and every index has a group. */
  lemma GroupMembership(links: seq<CF.RoadLink>, r: nat, k: int)
    requires r < |links|
    ensures k in Groups(links)[r] <==> 0 <= k < TotalLaneLinks(links) && OwnerOf(links, k) == r
  {
    var g := Groups(links)[r];
    if k in g {
      var j :| 0 <= j < |g| && g[j] == k;
      assert k == Offset(links, r) + j;
      OwnerUnique(links, k, r);
    }
    if 0 <= k < TotalLaneLinks(links) && OwnerOf(links, k) == r {
      assert g[k - Offset(links, r)] == k;
    }
  }

  /** Concatenation of a list of lists. */
  function Concat(ss: seq<seq<int>>): seq<int>
    decreases |ss|
  {
    if |ss| == 0 then [] else Concat(ss[..|ss| - 1]) + ss[|ss| - 1]
  }

  /** Adding a road link adds one group: the block right after the
      previous road links' lane links. */
  lemma GroupsSnoc(links: seq<CF.RoadLink>)
    requires 0 < |links|
    ensures Groups(links) == Groups(links[..|links| - 1])
              + [Block(TotalLaneLinks(links[..|links| - 1]), |links[|links| - 1].laneLinks|)]
  {
    var last := |links| - 1;
    var g, gi := Groups(links), Groups(links[..last]);
    forall r | 0 <= r < last
      ensures g[r] == gi[r]
    {
      OffsetOfPrefix(links, last, r);
    }
    var tail := Block(TotalLaneLinks(links[..last]), |links[last].laneLinks|);
    assert g[last] == tail;
    assert forall r :: 0 <= r < |g| ==> g[r] == (gi + [tail])[r];
    assert g == gi + [tail];
  }

  /** Every grouped link index is below the number of lane links. */
  lemma GroupsBelowTotal(links: seq<CF.RoadLink>)
    ensures forall r, k :: 0 <= r < |links| && k in Groups(links)[r] ==>
              0 <= k < TotalLaneLinks(links)
  {
    forall r, k | 0 <= r < |links| && k in Groups(links)[r]
      ensures 0 <= k < TotalLaneLinks(links)
    {
      GroupMembership(links, r, k);
    }
  }

  /** Two adjacent blocks form one block. */
  lemma BlockConcat(start: int, a: nat, b: nat)
    ensures Block(start, a) + Block(start + a, b) == Block(start, a + b)
  {
    var l, r := Block(start, a) + Block(start + a, b), Block(start, a + b);
    forall j | 0 <= j < a + b
      ensures l[j] == r[j]
    {
      if j >= a {
        assert l[j] == Block(start + a, b)[j - a];
      }
    }
  }

  /** The groups, taken in road-link order, list `0 .. n-1` exactly once
      each, in increasing order. */
  lemma {:induction false} GroupsCoverInOrder(links: seq<CF.RoadLink>)
    ensures Concat(Groups(links)) == Block(0, TotalLaneLinks(links))
    decreases |links|
  {
    if |links| > 0 {
      var last := |links| - 1;
      var init := links[..last];
      var g := Groups(links);
      GroupsCoverInOrder(init);
      GroupsSnoc(links);
      assert g[..last] == Groups(init);
      assert Concat(g) == Concat(Groups(init)) + g[last];
      BlockConcat(0, TotalLaneLinks(init), |links[last].laneLinks|);
    } else {
      assert Block(0, 0) == [];
    }
  }
}
