/**
 * The growth allocator of the donation tree (src/tree.ts:70-184): the trunk,
 * the alternating branches, the camera clamp limit and the leaf store, updated
 * once per donation by the `addDonation` closure.
 *
 * This module states the allocator on values (`Growth`, `AfterDonation`,
 * `AfterDonations`) and proves what it promises; module `Allocator` is the
 * imperative allocator, whose methods are proved to move their state exactly
 * as these functions say.
 *
 * Coordinates are reals, as the source computes with `height / 2`; sprite
 * heights and branch widths are natural numbers; every random draw is an
 * argument whose range is that of the source's draw.
 */
module Tree {
  import opened Schema

  // ---------------------------------------------------------------------------
  // Entities and constants.
  // ---------------------------------------------------------------------------

  datatype Side = Left | Right

  datatype Texture = TrunkFlatMid01 | TrunkFlatMid02

  /** A leaf: where a donation is drawn and its colour. */
  datatype Leaf = Leaf(x: real, y: real, tint: int)

  /**
   * A branch kind of the branch pool: the width of its bounds and its layout
   * template, one leaf per donation it can carry.
   */
  datatype BranchVariant = BranchVariant(width: nat, layout: seq<Leaf>)

  /** A trunk sprite, anchored at its bottom edge. */
  datatype Segment = Segment(texture: Texture, bottomY: real, height: nat)

  /** Where a branch was attached to the trunk. */
  datatype Anchor = Anchor(side: Side, x: real, y: real, width: nat)

  /** The active branch: its kind and how many donations it already holds. */
  datatype Active = Active(variant: BranchVariant, used: nat)

  /**
   * What is fixed for the life of the tree: the heights of the two trunk
   * textures, the x of the trunk's visual centre line, and the branch pool.
   */
  datatype Config = Config(mid01Height: nat, mid02Height: nat, trunkCenter: real, pool: seq<BranchVariant>)
  {
    /** The pool is non-empty and every branch kind can take a donation. */
    predicate Valid() {
      |pool| > 0 && forall i :: 0 <= i < |pool| ==> |pool[i].layout| > 0
    }

    function HeightOf(t: Texture): nat {
      match t
      case TrunkFlatMid01 => mid01Height
      case TrunkFlatMid02 => mid02Height
    }
  }

  /**
   * The random draws of one call: the index into the branch pool and the
   * extra gap added above a new branch, both used only when a branch is made.
   */
  datatype Draw = Draw(variant: nat, gap: nat)
  {
    predicate Fits(c: Config) {
      variant < |c.pool| && gap < EXTRA_GAP_RANGE
    }
  }

  /** One call of `addDonation`: the donation's id and that call's draws. */
  datatype Call = Call(id: string, draw: Draw)

  /** The trunk index every added segment takes its texture from. */
  const TRUNK_INDEX: nat := 1
  /** Headroom required between a pending branch anchor and the trunk top. */
  const HEADROOM: real := 200.0
  /** Fixed vertical gap between successive branches on one side. */
  const BRANCH_GAP: real := 600.0
  /** Extra gaps are drawn from [0, EXTRA_GAP_RANGE). */
  const EXTRA_GAP_RANGE: nat := 1000
  /** The initial anchor offsets are drawn from [0, START_JITTER_RANGE). */
  const START_JITTER_RANGE: nat := 200
  /** How far above the trunk top the camera clamp limit is set. */
  const CLAMP_MARGIN: real := 2000.0

  /** Even trunk counts use the first texture, odd counts the second. */
  function TrunkTexture(count: nat): Texture {
    if count % 2 == 0 then TrunkFlatMid01 else TrunkFlatMid02
  }

  function Top(s: Segment): real {
    s.bottomY - s.height as real
  }

  function Min(a: real, b: real): real {
    if a <= b then a else b
  }

  /** The side the `i`-th branch goes on, counting from zero. */
  function SideAt(i: nat): Side {
    if i % 2 == 0 then Left else Right
  }

  // ---------------------------------------------------------------------------
  // The allocator's state as a value, and its invariant.
  // ---------------------------------------------------------------------------

  datatype Growth = Growth(
    trunk: seq<Segment>,
    trunkTopY: real,
    treeTopY: real,
    leftBranchY: real,
    rightBranchY: real,
    isLeftBranch: bool,
    current: Option<Active>,
    branches: seq<Anchor>,
    clampTopLimit: real,
    leaves: map<string, Leaf>)
  {
    /** The next anchor height on one side. */
    function NextY(side: Side): real {
      if side == Left then leftBranchY else rightBranchY
    }
  }

  /**
   * The trunk is a contiguous stack of segments: the first is the first
   * texture, every other one the second; each sits on the top of the one
   * below; the trunk top and the tree-top sprite are at its upper edge.
   */
  predicate TrunkOk(c: Config, g: Growth) {
    |g.trunk| >= 2 &&
    (forall i :: 0 <= i < |g.trunk| ==>
       g.trunk[i].texture == (if i == 0 then TrunkFlatMid01 else TrunkFlatMid02) &&
       g.trunk[i].height == c.HeightOf(g.trunk[i].texture)) &&
    (forall i :: 0 < i < |g.trunk| ==> g.trunk[i].bottomY == Top(g.trunk[i - 1])) &&
    g.trunkTopY == Top(g.trunk[|g.trunk| - 1]) &&
    g.treeTopY == g.trunkTopY &&
    g.clampTopLimit <= 0.0
  }

  /**
   * Branches alternate sides starting on the left, sit on the trunk's centre
   * line, and on each side every branch is at least its width plus the fixed
   * gap above the previous one; the next anchor on each side is above all
   * branches already on that side by the same margin.
   */
  predicate BranchesOk(c: Config, g: Growth) {
    g.isLeftBranch == (|g.branches| % 2 == 0) &&
    (forall i :: 0 <= i < |g.branches| ==>
       g.branches[i].side == SideAt(i) && g.branches[i].x == c.trunkCenter) &&
    (forall i, j :: 0 <= i < j < |g.branches| && g.branches[i].side == g.branches[j].side ==>
       g.branches[j].y <= g.branches[i].y - g.branches[i].width as real - BRANCH_GAP) &&
    (forall i :: 0 <= i < |g.branches| ==>
       g.NextY(g.branches[i].side) <= g.branches[i].y - g.branches[i].width as real - BRANCH_GAP)
  }

  /** There is an active branch once one has been attached; it is the last one. */
  predicate ActiveOk(g: Growth) {
    (g.current.None? <==> g.branches == []) &&
    (g.current.Some? ==>
       0 < |g.current.value.variant.layout| &&
       g.current.value.used <= |g.current.value.variant.layout| &&
       g.current.value.variant.width == g.branches[|g.branches| - 1].width)
  }

  predicate Inv(c: Config, g: Growth) {
    TrunkOk(c, g) && BranchesOk(c, g) && ActiveOk(g)
  }

  /** Everything except the active branch's fill and the leaf store. */
  predicate SameShape(g: Growth, h: Growth) {
    g.trunk == h.trunk && g.trunkTopY == h.trunkTopY && g.treeTopY == h.treeTopY &&
    g.leftBranchY == h.leftBranchY && g.rightBranchY == h.rightBranchY &&
    g.isLeftBranch == h.isLeftBranch && g.branches == h.branches &&
    g.clampTopLimit == h.clampTopLimit
  }

  // ---------------------------------------------------------------------------
  // Construction.
  // ---------------------------------------------------------------------------

  /** The first `n` trunk segments stacked from `bottomY` upwards. */
  function InitialTrunk(c: Config, bottomY: real, n: nat): (s: seq<Segment>)
    ensures |s| == n
    ensures forall i :: 0 <= i < n ==>
      s[i].texture == TrunkTexture(i) && s[i].height == c.HeightOf(s[i].texture)
    ensures n > 0 ==> s[0].bottomY == bottomY
    ensures forall i :: 0 < i < n ==> s[i].bottomY == Top(s[i - 1])
  {
    if n == 0 then []
    else
      var below := InitialTrunk(c, bottomY, n - 1);
      var y := if n == 1 then bottomY else Top(below[n - 2]);
      below + [Segment(TrunkTexture(n - 1), y, c.HeightOf(TrunkTexture(n - 1)))]
  }

  /**
   * The state right after the tree is built: two trunk segments on the base,
   * the tree top on them, both anchors drawn at most 199 above half way up the
   * second segment, the left side first, no branch, clamp limit 0, and the leaf
   * store as persisted.
   */
  function Init(c: Config, treeBottomY: real, baseHeight: nat, leftJitter: nat, rightJitter: nat,
                stored: map<string, Leaf>): (g: Growth)
    requires leftJitter < START_JITTER_RANGE && rightJitter < START_JITTER_RANGE
    ensures Inv(c, g)
    ensures |g.trunk| == 2 && g.trunk[0].bottomY == treeBottomY - baseHeight as real
    ensures g.trunkTopY == treeBottomY - baseHeight as real - c.mid01Height as real - c.mid02Height as real
    ensures var mid := g.trunk[1].bottomY - c.mid02Height as real / 2.0;
      mid - 200.0 < g.leftBranchY <= mid && mid - 200.0 < g.rightBranchY <= mid
    ensures g.isLeftBranch && g.current.None? && g.branches == []
    ensures g.clampTopLimit == 0.0 && g.leaves == stored
  {
    var bottom := treeBottomY - baseHeight as real;
    var trunk := InitialTrunk(c, bottom, 2);
    assert InitialTrunk(c, bottom, 1) == [Segment(TrunkFlatMid01, bottom, c.mid01Height)];
    assert trunk == InitialTrunk(c, bottom, 1) + [Segment(TrunkFlatMid02, bottom - c.mid01Height as real, c.mid02Height)];
    var mid := trunk[1].bottomY - trunk[1].height as real / 2.0;
    var top := Top(trunk[1]);
    Growth(trunk, top, top, mid - leftJitter as real, mid - rightJitter as real,
           true, None, [], 0.0, stored)
  }

  // ---------------------------------------------------------------------------
  // One call of addDonation, step by step.
  // ---------------------------------------------------------------------------

  predicate Full(a: Active) {
    a.used >= |a.variant.layout|
  }

  /** A new branch is made when there is none or the active one is full. */
  predicate NeedsBranch(g: Growth) {
    g.current.None? || Full(g.current.value)
  }

  /** The trunk is short of headroom for the lower of the two pending anchors. */
  predicate ShortOfHeadroom(g: Growth) {
    Min(g.leftBranchY - HEADROOM, g.rightBranchY - HEADROOM) < g.trunkTopY
  }

  /**
   * Adds one trunk segment when headroom is short, moves the trunk top and the
   * tree top up by its height, and lowers the clamp limit when the trunk top
   * has passed it.
   */
  function ExtendTrunk(c: Config, g: Growth): (r: Growth)
    ensures |r.trunk| == |g.trunk| + (if ShortOfHeadroom(g) then 1 else 0)
    ensures r.trunk[..|g.trunk|] == g.trunk
    ensures r.trunkTopY == g.trunkTopY - (if ShortOfHeadroom(g) then c.mid02Height as real else 0.0)
    ensures r.clampTopLimit <= g.clampTopLimit
    ensures r.clampTopLimit != g.clampTopLimit <==> ShortOfHeadroom(g) && r.trunkTopY < g.clampTopLimit
    ensures r.clampTopLimit != g.clampTopLimit ==> r.clampTopLimit < r.trunkTopY
    ensures r == g.(trunk := r.trunk, trunkTopY := r.trunkTopY, treeTopY := r.treeTopY,
                    clampTopLimit := r.clampTopLimit)
  {
    if ShortOfHeadroom(g) then
      var texture := TrunkTexture(TRUNK_INDEX);
      var segment := Segment(texture, g.trunkTopY, c.HeightOf(texture));
      var top := g.trunkTopY - segment.height as real;
      var r := g.(trunk := g.trunk + [segment], trunkTopY := top, treeTopY := top,
                  clampTopLimit := if top < g.clampTopLimit then top - CLAMP_MARGIN else g.clampTopLimit);
      assert r.trunk[..|g.trunk|] == g.trunk;
      r
    else g
  }

  /**
   * Attaches a new branch of kind `v` at the current side's anchor, flips the
   * side and moves that side's anchor up by the width, the fixed gap and the
   * extra gap.
   */
  function AttachBranch(c: Config, g: Growth, v: BranchVariant, gap: nat): (r: Growth)
    requires |v.layout| > 0
    ensures r.current == Some(Active(v, 0))
    ensures var side := if g.isLeftBranch then Left else Right;
      && r.branches == g.branches + [Anchor(side, c.trunkCenter, g.NextY(side), v.width)]
      && r.NextY(side) == g.NextY(side) - (v.width as real + BRANCH_GAP + gap as real)
    ensures var other := if g.isLeftBranch then Right else Left;
      r.NextY(other) == g.NextY(other)
    ensures r.isLeftBranch == !g.isLeftBranch
    ensures r == g.(current := r.current, branches := r.branches, isLeftBranch := r.isLeftBranch,
                    leftBranchY := r.leftBranchY, rightBranchY := r.rightBranchY)
  {
    var rise := v.width as real + BRANCH_GAP + gap as real;
    if g.isLeftBranch then
      g.(current := Some(Active(v, 0)),
         branches := g.branches + [Anchor(Left, c.trunkCenter, g.leftBranchY, v.width)],
         isLeftBranch := false,
         leftBranchY := g.leftBranchY - rise)
    else
      g.(current := Some(Active(v, 0)),
         branches := g.branches + [Anchor(Right, c.trunkCenter, g.rightBranchY, v.width)],
         isLeftBranch := true,
         rightBranchY := g.rightBranchY - rise)
  }

  /**
   * Hands the donation to the active branch, which gives the next leaf of its
   * layout, and upserts that leaf under the donation's id.
   */
  function Deliver(c: Config, g: Growth, id: string): (r: Growth)
    requires g.current.Some? && !Full(g.current.value)
    ensures SameShape(g, r)
    ensures r.current == Some(g.current.value.(used := g.current.value.used + 1))
    ensures r.leaves == g.leaves[id := g.current.value.variant.layout[g.current.value.used]]
  {
    var a := g.current.value;
    g.(current := Some(a.(used := a.used + 1)), leaves := g.leaves[id := a.variant.layout[a.used]])
  }

  /**
   * The state after one call of `addDonation`: a branch is made first when
   * needed, then the donation goes to the active branch and its leaf is
   * upserted under the donation's id.
   */
  function AfterDonation(c: Config, g: Growth, d: Draw, id: string): (r: Growth)
    requires c.Valid() && d.Fits(c)
    ensures r.leaves.Keys == g.leaves.Keys + {id}
    ensures forall k :: k in g.leaves && k != id ==> r.leaves[k] == g.leaves[k]
    ensures r.current.Some? && 0 < r.current.value.used <= |r.current.value.variant.layout|
    ensures r.leaves[id] == r.current.value.variant.layout[r.current.value.used - 1]
  {
    if NeedsBranch(g) then
      var extended := ExtendTrunk(c, g);
      var attached := AttachBranch(c, extended, c.pool[d.variant], d.gap);
      Deliver(c, attached, id)
    else
      Deliver(c, g, id)
  }

  lemma ExtendTrunkKeepsInv(c: Config, g: Growth)
    requires Inv(c, g)
    ensures TrunkOk(c, ExtendTrunk(c, g)) && BranchesOk(c, ExtendTrunk(c, g))
  {
    var r := ExtendTrunk(c, g);
    if ShortOfHeadroom(g) {
      var n := |g.trunk|;
      assert r.trunk == g.trunk + [Segment(TrunkFlatMid02, g.trunkTopY, c.mid02Height)];
      forall i | 0 < i < |r.trunk|
        ensures r.trunk[i].bottomY == Top(r.trunk[i - 1])
      {
        if i < n {
          assert r.trunk[i] == g.trunk[i] && r.trunk[i - 1] == g.trunk[i - 1];
        }
      }
    }
  }

  lemma AttachBranchKeepsInv(c: Config, g: Growth, v: BranchVariant, gap: nat)
    requires |v.layout| > 0 && TrunkOk(c, g) && BranchesOk(c, g)
    ensures Inv(c, AttachBranch(c, g, v, gap))
  {
    AttachBranchKeepsBranchesOk(c, g, v, gap);
  }

  /**
   * A new branch keeps the alternation, and its side's anchor moves up past
   * it (its y decreases) by at least its width plus the fixed gap.
   */
  lemma AttachBranchKeepsBranchesOk(c: Config, g: Growth, v: BranchVariant, gap: nat)
    requires |v.layout| > 0 && BranchesOk(c, g)
    ensures BranchesOk(c, AttachBranch(c, g, v, gap))
  {
    var r := AttachBranch(c, g, v, gap);
    var n := |g.branches|;
    var side := if g.isLeftBranch then Left else Right;
    var anchor := Anchor(side, c.trunkCenter, g.NextY(side), v.width);
    assert r.branches == g.branches + [anchor];
    assert side == SideAt(n);
    forall i, j | 0 <= i < j < |r.branches| && r.branches[i].side == r.branches[j].side
      ensures r.branches[j].y <= r.branches[i].y - r.branches[i].width as real - BRANCH_GAP
    {
      if j < n {
        assert r.branches[i] == g.branches[i] && r.branches[j] == g.branches[j];
      } else {
        assert r.branches[i] == g.branches[i] && r.branches[j] == anchor;
      }
    }
    forall i | 0 <= i < |r.branches|
      ensures r.NextY(r.branches[i].side) <= r.branches[i].y - r.branches[i].width as real - BRANCH_GAP
    {
      if i < n {
        assert r.branches[i] == g.branches[i];
      }
    }
  }

  lemma DeliverKeepsInv(c: Config, g: Growth, id: string)
    requires Inv(c, g) && g.current.Some? && !Full(g.current.value)
    ensures Inv(c, Deliver(c, g, id))
  {
  }

  /** Every call keeps the trunk, branch and active-branch invariants. */
  lemma AfterDonationKeepsInv(c: Config, g: Growth, d: Draw, id: string)
    requires c.Valid() && d.Fits(c) && Inv(c, g)
    ensures Inv(c, AfterDonation(c, g, d, id))
  {
    if NeedsBranch(g) {
      var extended := ExtendTrunk(c, g);
      ExtendTrunkKeepsInv(c, g);
      var attached := AttachBranch(c, extended, c.pool[d.variant], d.gap);
      AttachBranchKeepsInv(c, extended, c.pool[d.variant], d.gap);
      DeliverKeepsInv(c, attached, id);
    } else {
      DeliverKeepsInv(c, g, id);
    }
  }

  /** An active branch that is not full takes the donation and nothing else moves. */
  lemma StableWhenActive(c: Config, g: Growth, d: Draw, id: string)
    requires c.Valid() && d.Fits(c)
    requires !NeedsBranch(g)
    ensures var r := AfterDonation(c, g, d, id);
      SameShape(g, r) && r.current == Some(g.current.value.(used := g.current.value.used + 1))
  {
  }

  /**
   * A new branch goes on the side the flag names, the flag flips, and the new
   * branch has taken this donation.
   */
  lemma NewBranchAlternates(c: Config, g: Growth, d: Draw, id: string)
    requires c.Valid() && d.Fits(c)
    requires NeedsBranch(g)
    ensures var r := AfterDonation(c, g, d, id);
      && |r.branches| == |g.branches| + 1
      && r.branches[..|g.branches|] == g.branches
      && r.branches[|g.branches|].side == (if g.isLeftBranch then Left else Right)
      && r.isLeftBranch == !g.isLeftBranch
      && r.current == Some(Active(c.pool[d.variant], 1))
  {
  }

  /** Under the invariant, a new branch goes on the other side from the previous one. */
  lemma NewBranchOppositeSide(c: Config, g: Growth, d: Draw, id: string)
    requires c.Valid() && d.Fits(c) && Inv(c, g)
    requires NeedsBranch(g) && g.branches != []
    ensures var r := AfterDonation(c, g, d, id);
      r.branches[|r.branches| - 1].side != g.branches[|g.branches| - 1].side
  {
    NewBranchAlternates(c, g, d, id);
    var n := |g.branches|;
    assert g.branches[n - 1].side == SideAt(n - 1);
  }

  /**
   * A new branch is attached at its side's anchor, whose y then decreases by the
   * branch width plus 600 plus less than 1000; the other side's anchor stays.
   */
  lemma NewBranchAnchor(c: Config, g: Growth, d: Draw, id: string)
    requires c.Valid() && d.Fits(c)
    requires NeedsBranch(g)
    ensures var r := AfterDonation(c, g, d, id);
      var side := if g.isLeftBranch then Left else Right;
      var other := if g.isLeftBranch then Right else Left;
      var w := c.pool[d.variant].width as real;
      && |r.branches| == |g.branches| + 1
      && r.branches[|g.branches|] == Anchor(side, c.trunkCenter, g.NextY(side), c.pool[d.variant].width)
      && w + BRANCH_GAP <= g.NextY(side) - r.NextY(side) < w + BRANCH_GAP + EXTRA_GAP_RANGE as real
      && r.NextY(other) == g.NextY(other)
  {
  }

  /**
   * At most one trunk segment is added, exactly when a branch is made while
   * headroom is short; it is always of the second texture and sits on the old
   * trunk top, and the y of the trunk top and of the tree top then decreases by its height.
   */
  lemma TrunkExtension(c: Config, g: Growth, d: Draw, id: string)
    requires c.Valid() && d.Fits(c)
    ensures var r := AfterDonation(c, g, d, id);
      && |r.trunk| == |g.trunk| + (if NeedsBranch(g) && ShortOfHeadroom(g) then 1 else 0)
      && r.trunk[..|g.trunk|] == g.trunk
      && r.trunkTopY == g.trunkTopY - (if |r.trunk| > |g.trunk| then c.mid02Height as real else 0.0)
      && (|r.trunk| > |g.trunk| ==>
            r.trunk[|g.trunk|] == Segment(TrunkFlatMid02, g.trunkTopY, c.mid02Height) &&
            r.treeTopY == r.trunkTopY)
  {
  }

  /**
   * The clamp limit only moves when a new trunk top passes it, and then to
   * 2000 above that top, so its y never increases (it only moves up the tree).
   */
  lemma ClampLimit(c: Config, g: Growth, d: Draw, id: string)
    requires c.Valid() && d.Fits(c)
    ensures var r := AfterDonation(c, g, d, id);
      && r.clampTopLimit <= g.clampTopLimit
      && (r.clampTopLimit != g.clampTopLimit <==> |r.trunk| > |g.trunk| && r.trunkTopY < g.clampTopLimit)
      && (r.clampTopLimit != g.clampTopLimit ==> r.clampTopLimit == r.trunkTopY - CLAMP_MARGIN)
  {
  }

  /**
   * What one call keeps: nothing of the trunk or the branches is lost, and
   * neither the trunk top's y nor the clamp limit's y increases.
   */
  lemma StepKeeps(c: Config, g: Growth, d: Draw, id: string)
    requires c.Valid() && d.Fits(c)
    ensures var r := AfterDonation(c, g, d, id);
      && r.trunkTopY <= g.trunkTopY
      && r.clampTopLimit <= g.clampTopLimit
      && |g.trunk| <= |r.trunk| <= |g.trunk| + 1 && r.trunk[..|g.trunk|] == g.trunk
      && |g.branches| <= |r.branches| <= |g.branches| + 1 && r.branches[..|g.branches|] == g.branches
  {
    TrunkExtension(c, g, d, id);
    ClampLimit(c, g, d, id);
    if NeedsBranch(g) {
      NewBranchAlternates(c, g, d, id);
    } else {
      StableWhenActive(c, g, d, id);
    }
  }

  // ---------------------------------------------------------------------------
  // Runs of calls.
  // ---------------------------------------------------------------------------

  predicate AllFit(c: Config, calls: seq<Call>) {
    forall i :: 0 <= i < |calls| ==> calls[i].draw.Fits(c)
  }

  function Ids(calls: seq<Call>): set<string> {
    set i | 0 <= i < |calls| :: calls[i].id
  }

  /** The state after a run of calls, made in order. */
  function AfterDonations(c: Config, g: Growth, calls: seq<Call>): (r: Growth)
    requires c.Valid() && AllFit(c, calls)
    decreases |calls|
  {
    if calls == [] then g
    else
      var n := |calls| - 1;
      AfterDonation(c, AfterDonations(c, g, calls[..n]), calls[n].draw, calls[n].id)
  }

  /**
   * Over any run of calls the y of the trunk top and of the clamp limit never
   * increases (neither moves down the tree), the
   * trunk and the branch list only grow at the end, by at most one per call,
   * and the leaf store gains exactly the run's ids, leaving other leaves alone.
   */
  lemma {:induction false} RunKeeps(c: Config, g: Growth, calls: seq<Call>)
    requires c.Valid() && AllFit(c, calls)
    ensures var r := AfterDonations(c, g, calls);
      && r.trunkTopY <= g.trunkTopY
      && r.clampTopLimit <= g.clampTopLimit
      && |g.trunk| <= |r.trunk| <= |g.trunk| + |calls| && r.trunk[..|g.trunk|] == g.trunk
      && |g.branches| <= |r.branches| <= |g.branches| + |calls| && r.branches[..|g.branches|] == g.branches
      && r.leaves.Keys == g.leaves.Keys + Ids(calls)
      && (forall k :: k in g.leaves && k !in Ids(calls) ==> r.leaves[k] == g.leaves[k])
    decreases |calls|
  {
    if calls != [] {
      var n := |calls| - 1;
      AfterDonationsSnoc(c, g, calls);
      RunKeeps(c, g, calls[..n]);
      var before := AfterDonations(c, g, calls[..n]);
      var r := AfterDonation(c, before, calls[n].draw, calls[n].id);
      StepKeeps(c, before, calls[n].draw, calls[n].id);
      PrefixChain(g.trunk, before.trunk, r.trunk);
      PrefixChain(g.branches, before.branches, r.branches);
      IdsSnoc(calls);
    }
  }

  /** Every run of calls keeps the invariant. */
  lemma {:induction false} RunKeepsInv(c: Config, g: Growth, calls: seq<Call>)
    requires c.Valid() && AllFit(c, calls) && Inv(c, g)
    ensures Inv(c, AfterDonations(c, g, calls))
    decreases |calls|
  {
    if calls != [] {
      var n := |calls| - 1;
      AfterDonationsSnoc(c, g, calls);
      RunKeepsInv(c, g, calls[..n]);
      var before := AfterDonations(c, g, calls[..n]);
      AfterDonationKeepsInv(c, before, calls[n].draw, calls[n].id);
    }
  }

  lemma PrefixChain<T>(a: seq<T>, b: seq<T>, c: seq<T>)
    requires |a| <= |b| <= |c| && b[..|a|] == a && c[..|b|] == b
    ensures c[..|a|] == a
  {
    assert c[..|a|] == c[..|b|][..|a|];
  }

  lemma IdsSnoc(calls: seq<Call>)
    requires calls != []
    ensures Ids(calls) == Ids(calls[..|calls| - 1]) + {calls[|calls| - 1].id}
  {
    var n := |calls| - 1;
    assert forall i :: 0 <= i < n ==> calls[..n][i] == calls[i];
  }

  lemma AllFitAppend(c: Config, a: seq<Call>, b: seq<Call>)
    requires AllFit(c, a) && AllFit(c, b)
    ensures AllFit(c, a + b)
  {
    forall i | 0 <= i < |a + b| ensures (a + b)[i].draw.Fits(c) {
      if i < |a| { assert (a + b)[i] == a[i]; } else { assert (a + b)[i] == b[i - |a|]; }
    }
  }

  /** A run ending in a call is the run before it, then that call. */
  lemma AfterDonationsSnoc(c: Config, g: Growth, calls: seq<Call>)
    requires c.Valid() && AllFit(c, calls) && calls != []
    ensures var n := |calls| - 1;
      AllFit(c, calls[..n]) &&
      AfterDonations(c, g, calls) == AfterDonation(c, AfterDonations(c, g, calls[..n]), calls[n].draw, calls[n].id)
  {
    var n := |calls| - 1;
    assert forall i :: 0 <= i < n ==> calls[..n][i] == calls[i];
  }

  /** The run of the first `i + 1` calls is the run of the first `i`, then call `i`. */
  lemma AfterDonationsPrefix(c: Config, g: Growth, calls: seq<Call>, i: nat)
    requires c.Valid() && AllFit(c, calls) && i < |calls|
    ensures AllFit(c, calls[..i]) && AllFit(c, calls[..i + 1])
    ensures AfterDonations(c, g, calls[..i + 1]) ==
            AfterDonation(c, AfterDonations(c, g, calls[..i]), calls[i].draw, calls[i].id)
  {
    assert forall k :: 0 <= k <= i ==> calls[..i + 1][k] == calls[k];
    AfterDonationsSnoc(c, g, calls[..i + 1]);
    assert calls[..i + 1][..i] == calls[..i];
  }

  /** Running `a` then `b` is running `a + b`. */
  lemma {:induction false} AfterDonationsAppend(c: Config, g: Growth, a: seq<Call>, b: seq<Call>)
    requires c.Valid() && AllFit(c, a) && AllFit(c, b)
    ensures AllFit(c, a + b)
    ensures AfterDonations(c, g, a + b) == AfterDonations(c, AfterDonations(c, g, a), b)
    decreases |b|
  {
    AllFitAppend(c, a, b);
    if b == [] {
      assert a + b == a;
    } else {
      var n := |b| - 1;
      var ab := a + b;
      assert ab[..|ab| - 1] == a + b[..n];
      assert ab[|ab| - 1] == b[n];
      AfterDonationsSnoc(c, g, ab);
      AfterDonationsSnoc(c, AfterDonations(c, g, a), b);
      AfterDonationsAppend(c, g, a, b[..n]);
    }
  }

  /**
   * The last call for an id decides that id's leaf: later calls for other ids
   * leave it as that call placed it.
   */
  lemma LastWriteWins(c: Config, g: Growth, a: seq<Call>, call: Call, b: seq<Call>)
    requires c.Valid() && AllFit(c, a + [call]) && AllFit(c, b)
    requires call.id !in Ids(b)
    ensures AllFit(c, a + [call] + b)
    ensures var h := AfterDonations(c, g, a + [call]);
      var r := AfterDonations(c, g, a + [call] + b);
      && call.id in h.leaves
      && h.leaves[call.id] == h.current.value.variant.layout[h.current.value.used - 1]
      && call.id in r.leaves && r.leaves[call.id] == h.leaves[call.id]
  {
    AfterDonationsAppend(c, g, a + [call], b);
    AfterDonationsSnoc(c, g, a + [call]);
    assert (a + [call])[..|a|] == a;
    var h := AfterDonations(c, g, a + [call]);
    RunKeeps(c, h, b);
  }

  /**
   * From the built tree, any run of calls attaches branches left, right,
   * left, ..., never increases the y of the trunk top or the clamp limit, and gives a leaf
   * to every donation id it saw.
   */
  lemma {:induction false} GrowthFromStart(c: Config, treeBottomY: real, baseHeight: nat,
                                           leftJitter: nat, rightJitter: nat,
                                           stored: map<string, Leaf>, calls: seq<Call>)
    requires c.Valid() && AllFit(c, calls)
    requires leftJitter < START_JITTER_RANGE && rightJitter < START_JITTER_RANGE
    ensures var g := Init(c, treeBottomY, baseHeight, leftJitter, rightJitter, stored);
      var r := AfterDonations(c, g, calls);
      && (forall i :: 0 <= i < |r.branches| ==> r.branches[i].side == SideAt(i))
      && r.trunkTopY <= g.trunkTopY
      && r.clampTopLimit <= 0.0
      && Ids(calls) <= r.leaves.Keys
  {
    var g := Init(c, treeBottomY, baseHeight, leftJitter, rightJitter, stored);
    RunKeepsInv(c, g, calls);
    RunKeeps(c, g, calls);
  }

  /**
   * Replaying a stored document places it again: a leaf already in the store
   * is overwritten by the slot the replay hands out, here a different one.
   */
  lemma StoredLeafReplaced()
    ensures var c := Config(100, 100, 0.0, [BranchVariant(50, [Leaf(0.0, 0.0, 0)])]);
      var stored := map["a" := Leaf(1.0, 1.0, 1)];
      var g := Init(c, 0.0, 10, 0, 0, stored);
      var r := AfterDonations(c, g, [Call("a", Draw(0, 0))]);
      "a" in r.leaves && r.leaves["a"] == Leaf(0.0, 0.0, 0) != stored["a"]
  {
    var c := Config(100, 100, 0.0, [BranchVariant(50, [Leaf(0.0, 0.0, 0)])]);
    var g := Init(c, 0.0, 10, 0, 0, map["a" := Leaf(1.0, 1.0, 1)]);
    AfterDonationsSnoc(c, g, [Call("a", Draw(0, 0))]);
    assert [Call("a", Draw(0, 0))][..0] == [];
  }
}
