/** The dense numbering of the start and mid points of a body in `location.rs`. */
module LocationTables {
  import opened Mir

  datatype RichLocation = Start(location: Location) | Mid(location: Location)

  ghost predicate IsRichPoint(body: Body, r: RichLocation) {
    IsPoint(body, r.location)
  }

  /** The number of rich points in the first `n` blocks. */
  function PointsBefore(body: Body, n: nat): nat
    requires n <= |body.blocks|
  {
    if n == 0 then 0 else PointsBefore(body, n - 1) + (|body.blocks[n - 1].statements| + 1) * 2
  }

  lemma {:induction false} PointsBeforeGrows(body: Body, m: nat, n: nat)
    requires m < n <= |body.blocks|
    ensures PointsBefore(body, m) + (|body.blocks[m].statements| + 1) * 2 <= PointsBefore(body, n)
    decreases n
  {
    if m < n - 1 {
      PointsBeforeGrows(body, m, n - 1);
    }
  }

  /** The block that a dense index falls into is the last one that starts at or before it. */
  lemma {:induction false} BlockOfIndex(body: Body, index: nat, n: nat) returns (b: BasicBlock)
    requires n <= |body.blocks| && index < PointsBefore(body, n)
    ensures b < n && PointsBefore(body, b) <= index < PointsBefore(body, b) + (|body.blocks[b].statements| + 1) * 2
  {
    if PointsBefore(body, n - 1) <= index {
      b := n - 1;
    } else {
      b := BlockOfIndex(body, index, n - 1);
    }
  }

  class LocationTable {
    ghost const body: Body
    const numPoints: nat
    const statementsBeforeBlock: seq<nat>

    constructor (body: Body)
      ensures this.body == body && Valid()
    {
      var points, before := 0, [];
      for b := 0 to |body.blocks|
        invariant points == PointsBefore(body, b)
        invariant |before| == b && forall c :: 0 <= c < b ==> before[c] == PointsBefore(body, c)
      {
        before := before + [points];
        points := points + (|body.blocks[b].statements| + 1) * 2;
      }
      this.body, this.numPoints, this.statementsBeforeBlock := body, points, before;
    }

    ghost predicate Valid() {
      && numPoints == PointsBefore(body, |body.blocks|)
      && |statementsBeforeBlock| == |body.blocks|
      && forall b :: 0 <= b < |body.blocks| ==> statementsBeforeBlock[b] == PointsBefore(body, b)
    }

    function StartIndex(p: Location): nat
      requires p.block < |statementsBeforeBlock|
    {
      statementsBeforeBlock[p.block] + p.index * 2
    }

    function MidIndex(p: Location): nat
      requires p.block < |statementsBeforeBlock|
    {
      statementsBeforeBlock[p.block] + p.index * 2 + 1
    }

    function IndexOf(r: RichLocation): nat
      requires r.location.block < |statementsBeforeBlock|
    {
      match r
      case Start(p) => StartIndex(p)
      case Mid(p) => MidIndex(p)
    }

    ghost predicate IsIndexOfSome(index: nat)
      requires Valid()
    {
      exists r :: IsRichPoint(body, r) && IndexOf(r) == index
    }

    /** The last block that starts at or before the index, found from the back. */
    method ToLocation(index: nat) returns (r: RichLocation)
      requires Valid() && index < numPoints
      ensures IsRichPoint(body, r) && IndexOf(r) == index
    {
      ghost var found := BlockOfIndex(body, index, |body.blocks|);
      var b := |statementsBeforeBlock| - 1;
      while statementsBeforeBlock[b] > index
        invariant found <= b < |statementsBeforeBlock|
        decreases b
      {
        b := b - 1;
      }
      if found < b {
        PointsBeforeGrows(body, found, b);
      }
      PointsBeforeIsEven(body, b);
      var statementIndex := (index - statementsBeforeBlock[b]) / 2;
      if index % 2 == 0 {
        r := Start(Location(b, statementIndex));
      } else {
        r := Mid(Location(b, statementIndex));
      }
    }

    /** The numbering is a bijection from the start and mid points onto the indices below `numPoints`. */
    lemma DenseExactly()
      requires Valid()
      ensures forall r :: IsRichPoint(body, r) ==> IndexOf(r) < numPoints
      ensures forall r, r' :: IsRichPoint(body, r) && IsRichPoint(body, r') && IndexOf(r) == IndexOf(r') ==> r == r'
      ensures forall index: nat :: index < numPoints ==> IsIndexOfSome(index)
    {
      forall r | IsRichPoint(body, r)
        ensures IndexOf(r) < numPoints
      {
        PointsBeforeGrows(body, r.location.block, |body.blocks|);
      }
      forall r, r' | IsRichPoint(body, r) && IsRichPoint(body, r') && IndexOf(r) == IndexOf(r')
        ensures r == r'
      {
        OneToOne(r, r');
      }
      forall index: nat | index < numPoints
        ensures IsIndexOfSome(index)
      {
        var b := BlockOfIndex(body, index, |body.blocks|);
        var offset := index - PointsBefore(body, b);
        var p := Location(b, offset / 2);
        var r := if offset % 2 == 0 then Start(p) else Mid(p);
        assert IsRichPoint(body, r) && IndexOf(r) == index;
      }
    }

    /** A start point has an even index, and its mid point the next one. */
    lemma StartsAreEven(p: Location)
      requires Valid() && IsPoint(body, p)
      ensures IndexOf(Start(p)) % 2 == 0 && IndexOf(Mid(p)) == IndexOf(Start(p)) + 1
    {
      PointsBeforeIsEven(body, p.block);
    }

    /** The numbering follows the order of blocks and of the points within them. */
    lemma OrderExactly(p: Location, q: Location)
      requires Valid() && IsPoint(body, p) && IsPoint(body, q)
      ensures IndexOf(Mid(p)) < IndexOf(Start(q)) <==> p.block < q.block || (p.block == q.block && p.index < q.index)
    {
      if p.block < q.block {
        PointsBeforeGrows(body, p.block, q.block);
      } else if q.block < p.block {
        PointsBeforeGrows(body, q.block, p.block);
      }
    }

    lemma OneToOne(r: RichLocation, r': RichLocation)
      requires Valid() && IsRichPoint(body, r) && IsRichPoint(body, r') && IndexOf(r) == IndexOf(r')
      ensures r == r'
    {
      var b, b' := r.location.block, r'.location.block;
      if b < b' {
        PointsBeforeGrows(body, b, b');
      } else if b' < b {
        PointsBeforeGrows(body, b', b);
      }
    }
  }

  /** Each point has two indices, so start points are even. */
  lemma {:induction false} PointsBeforeIsEven(body: Body, n: nat)
    requires n <= |body.blocks|
    ensures PointsBefore(body, n) % 2 == 0
  {
    if n > 0 {
      PointsBeforeIsEven(body, n - 1);
    }
  }
}
