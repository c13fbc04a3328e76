/**
 * The imperative growth allocator (src/tree.ts:70-184): the mutable state the
 * `addDonation` closure of `buildTreeSpriteGraph` captures, the branch objects
 * it fills, the replay of the stored documents and the insert-stream callback.
 */
module Allocator {
  import opened Schema
  import opened Tree

  /**
   * A branch object of the pool: its bounds' width and layout template are
   * fixed, its fill grows by one per donation, and it is full once every slot
   * of the layout is taken.
   */
  class Branch {
    const variant: BranchVariant
    var used: nat
    var x: real
    var y: real

    constructor (v: BranchVariant)
      ensures variant == v && used == 0
    {
      variant := v;
      used := 0;
      x, y := 0.0, 0.0;
    }

    predicate Full()
      reads this
    {
      used >= |variant.layout|
    }

    /** The width of the branch's bounds. */
    function Width(): nat {
      variant.width
    }

    /** Lays one donation out in the next free slot of the template. */
    method AddDonation(donation: Donation) returns (leaf: Leaf)
      requires !Full()
      modifies this`used
      ensures used == old(used) + 1
      ensures leaf == variant.layout[old(used)]
    {
      leaf := variant.layout[used];
      used := used + 1;
    }
  }

  /** A live insert event of the local donations collection. */
  datatype InsertEvent = InsertEvent(documentId: string, documentData: Donation)

  function DocCalls(docs: seq<Donation>, draws: seq<Draw>): (calls: seq<Call>)
    requires |draws| == |docs|
    ensures |calls| == |docs|
    ensures forall i :: 0 <= i < |docs| ==> calls[i] == Call(docs[i].id, draws[i])
  {
    seq(|docs|, i requires 0 <= i < |docs| => Call(docs[i].id, draws[i]))
  }

  function EventCalls(events: seq<InsertEvent>, draws: seq<Draw>): (calls: seq<Call>)
    requires |draws| == |events|
    ensures |calls| == |events|
    ensures forall i :: 0 <= i < |events| ==> calls[i] == Call(events[i].documentId, draws[i])
  {
    seq(|events|, i requires 0 <= i < |events| => Call(events[i].documentId, draws[i]))
  }

  /** The state captured by the `addDonation` closure of `buildTreeSpriteGraph`. */
  class GrowthAllocator {
    const config: Config
    var trunkSprites: seq<Segment>
    var trunkTopY: real
    var treeTopY: real
    var leftBranchY: real
    var rightBranchY: real
    var isLeftBranch: bool
    var currentBranch: Branch?
    /** The branches added to the tree container, in order. */
    var branches: seq<Anchor>
    var currentClampTopLimit: real
    /** The leaf store, keyed by donation id. */
    var leaves: map<string, Leaf>

    ghost function Model(): Growth
      reads this, currentBranch
    {
      Growth(trunkSprites, trunkTopY, treeTopY, leftBranchY, rightBranchY, isLeftBranch,
             if currentBranch == null then None else Some(Active(currentBranch.variant, currentBranch.used)),
             branches, currentClampTopLimit, leaves)
    }

    ghost predicate Valid()
      reads this, currentBranch
    {
      config.Valid() && Inv(config, Model()) && Placed()
    }

    /** The active branch object sits where its anchor was recorded. */
    ghost predicate Placed()
      reads this, currentBranch
    {
      currentBranch != null && branches != [] ==>
        currentBranch.x == branches[|branches| - 1].x && currentBranch.y == branches[|branches| - 1].y
    }

    /** Builds the trunk on the base and sets up the growth state. */
    constructor (config: Config, treeBottomY: real, baseHeight: nat, leftJitter: nat, rightJitter: nat,
                 stored: map<string, Leaf>)
      requires config.Valid()
      requires leftJitter < START_JITTER_RANGE && rightJitter < START_JITTER_RANGE
      ensures Valid()
      ensures Model() == Init(config, treeBottomY, baseHeight, leftJitter, rightJitter, stored)
    {
      this.config := config;
      var bottom := treeBottomY - baseHeight as real;
      var sprites: seq<Segment> := [];
      var top := bottom;
      for trunkNum := 0 to 2
        invariant sprites == InitialTrunk(config, bottom, trunkNum)
        invariant top == if trunkNum == 0 then bottom else Top(sprites[trunkNum - 1])
      {
        var texture := TrunkTexture(trunkNum);
        var sprite := Segment(texture, top, config.HeightOf(texture));
        top := top - sprite.height as real;
        sprites := sprites + [sprite];
      }
      trunkSprites := sprites;
      trunkTopY := top;
      treeTopY := top;
      var mid := sprites[1].bottomY - sprites[1].height as real / 2.0;
      leftBranchY := mid - leftJitter as real;
      rightBranchY := mid - rightJitter as real;
      isLeftBranch := true;
      currentBranch := null;
      branches := [];
      currentClampTopLimit := 0.0;
      leaves := stored;
    }

    /**
     * Adds a trunk segment when the lower pending anchor is short of headroom,
     * lowering the clamp limit when the new top passes it.
     */
    method GrowTrunk(ghost g: Growth)
      requires Model() == g
      modifies this`trunkSprites, this`trunkTopY, this`treeTopY, this`currentClampTopLimit
      ensures Model() == ExtendTrunk(config, g)
    {
      if Min(leftBranchY - HEADROOM, rightBranchY - HEADROOM) < trunkTopY {
        var texture := TrunkTexture(TRUNK_INDEX);
        var sprite := Segment(texture, trunkTopY, config.HeightOf(texture));
        trunkTopY := trunkTopY - sprite.height as real;
        trunkSprites := trunkSprites + [sprite];
        treeTopY := trunkTopY;

        if trunkTopY < currentClampTopLimit {
          currentClampTopLimit := trunkTopY - CLAMP_MARGIN;
        }
      }
    }

    /**
     * Makes the new branch the active one, puts it at the current side's
     * anchor, flips the side, raises that side's anchor and adds the branch to
     * the tree.
     */
    method PlaceBranch(branch: Branch, gap: nat, ghost g: Growth)
      requires Model() == g && branch.used == 0 && |branch.variant.layout| > 0
      modifies this`currentBranch, this`isLeftBranch, this`leftBranchY, this`rightBranchY, this`branches
      modifies branch`x, branch`y
      ensures Model() == AttachBranch(config, g, branch.variant, gap)
      ensures currentBranch == branch && Placed()
    {
      currentBranch := branch;
      var width := branch.Width();
      var side := if isLeftBranch then Left else Right;
      if isLeftBranch {
        branch.x, branch.y := config.trunkCenter, leftBranchY;
        isLeftBranch := false;
        leftBranchY := leftBranchY - (width as real + BRANCH_GAP + gap as real);
      } else {
        branch.x, branch.y := config.trunkCenter, rightBranchY;
        isLeftBranch := true;
        rightBranchY := rightBranchY - (width as real + BRANCH_GAP + gap as real);
      }
      branches := branches + [Anchor(side, branch.x, branch.y, width)];
    }

    /** Lays the donation out on the active branch and upserts its leaf. */
    method PlaceLeaf(donationId: string, donation: Donation, ghost g: Growth)
      requires Model() == g && g.current.Some? && !Full(g.current.value) && Placed()
      modifies this`leaves, currentBranch`used
      ensures Model() == Deliver(config, g, donationId)
      ensures currentBranch == old(currentBranch) && Placed()
    {
      var leaf := currentBranch.AddDonation(donation);
      leaves := leaves[donationId := leaf];
    }

    /** Places one donation: the body of the `addDonation` closure. */
    method AddDonation(donationId: string, donation: Donation, draw: Draw)
      requires Valid() && draw.Fits(config)
      modifies this, currentBranch
      ensures Valid()
      ensures Model() == AfterDonation(config, old(Model()), draw, donationId)
      ensures currentBranch == old(currentBranch) || fresh(currentBranch)
    {
      ghost var g := Model();
      AfterDonationKeepsInv(config, g, draw, donationId);
      ghost var before := g;
      if currentBranch == null || currentBranch.Full() {
        var branch := new Branch(config.pool[draw.variant]);
        GrowTrunk(g);
        ghost var extended := ExtendTrunk(config, g);
        PlaceBranch(branch, draw.gap, extended);
        before := AttachBranch(config, extended, branch.variant, draw.gap);
      }
      PlaceLeaf(donationId, donation, before);
    }

    /** Replays the documents already in the local collection, in order. */
    method Replay(docs: seq<Donation>, draws: seq<Draw>)
      requires Valid() && |draws| == |docs|
      requires forall i :: 0 <= i < |draws| ==> draws[i].Fits(config)
      modifies this, currentBranch
      ensures Valid()
      ensures Model() == AfterDonations(config, old(Model()), DocCalls(docs, draws))
      ensures currentBranch == old(currentBranch) || fresh(currentBranch)
    {
      ghost var g := Model();
      ghost var calls := DocCalls(docs, draws);
      assert calls[..0] == [];
      for i := 0 to |docs|
        invariant Valid()
        invariant Model() == AfterDonations(config, g, calls[..i])
        invariant currentBranch == old(currentBranch) || fresh(currentBranch)
      {
        AfterDonationsPrefix(config, g, calls, i);
        AddDonation(docs[i].id, docs[i], draws[i]);
      }
      assert calls[..|docs|] == calls;
    }

    /** The callback of the collection's insert stream. */
    method OnInsert(event: InsertEvent, draw: Draw)
      requires Valid() && draw.Fits(config)
      modifies this, currentBranch
      ensures Valid()
      ensures Model() == AfterDonation(config, old(Model()), draw, event.documentId)
      ensures currentBranch == old(currentBranch) || fresh(currentBranch)
    {
      AddDonation(event.documentId, event.documentData, draw);
    }

    /**
     * The whole life of the allocator after the tree is built: the stored
     * documents first, then each insert event as it arrives.
     */
    method Session(docs: seq<Donation>, docDraws: seq<Draw>, events: seq<InsertEvent>, eventDraws: seq<Draw>)
      requires Valid() && |docDraws| == |docs| && |eventDraws| == |events|
      requires forall i :: 0 <= i < |docDraws| ==> docDraws[i].Fits(config)
      requires forall i :: 0 <= i < |eventDraws| ==> eventDraws[i].Fits(config)
      modifies this, currentBranch
      ensures Valid()
      ensures AllFit(config, DocCalls(docs, docDraws) + EventCalls(events, eventDraws))
      ensures Model() == AfterDonations(config, old(Model()), DocCalls(docs, docDraws) + EventCalls(events, eventDraws))
    {
      ghost var g := Model();
      Replay(docs, docDraws);
      ghost var calls := EventCalls(events, eventDraws);
      ghost var h := Model();
      assert calls[..0] == [];
      for j := 0 to |events|
        invariant Valid()
        invariant Model() == AfterDonations(config, h, calls[..j])
        invariant currentBranch == old(currentBranch) || fresh(currentBranch)
      {
        AfterDonationsPrefix(config, h, calls, j);
        OnInsert(events[j], eventDraws[j]);
      }
      assert calls[..|events|] == calls;
      AfterDonationsAppend(config, g, DocCalls(docs, docDraws), calls);
    }
  }
}
