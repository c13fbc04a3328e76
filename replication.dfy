/**
 * The pull side of the `donations` replication (src/main.ts:197-244): the
 * handler that turns a checkpoint into list options, maps the fetched page to
 * documents and chooses the next checkpoint, and the mapping of one live
 * subscription event to a one-document batch. The remote list call itself is
 * replaced by the list of items it returned.
 */
module Replication {
  import opened Schema

  // ---------------------------------------------------------------------------
  // The order on `updated`: strings compared character by character.
  // ---------------------------------------------------------------------------

  /** `a` sorts strictly before `b` in lexicographic order. */
  predicate Before(a: string, b: string) {
    if a == [] then b != []
    else if b == [] then false
    else a[0] < b[0] || (a[0] == b[0] && Before(a[1..], b[1..]))
  }

  predicate NotAfter(a: string, b: string) {
    a == b || Before(a, b)
  }

  lemma {:induction false} BeforeIrreflexive(a: string)
    ensures !Before(a, a)
  {
    if a != [] {
      BeforeIrreflexive(a[1..]);
    }
  }

  lemma {:induction false} BeforeTransitive(a: string, b: string, c: string)
    requires Before(a, b) && Before(b, c)
    ensures Before(a, c)
  {
    if a != [] && a[0] == b[0] && b[0] == c[0] {
      BeforeTransitive(a[1..], b[1..], c[1..]);
    }
  }

  lemma {:induction false} BeforeTotal(a: string, b: string)
    ensures a == b || Before(a, b) || Before(b, a)
  {
    if a != [] && b != [] && a[0] == b[0] {
      BeforeTotal(a[1..], b[1..]);
      if a[1..] == b[1..] {
        assert a == [a[0]] + a[1..] && b == [b[0]] + b[1..];
      }
    }
  }

  lemma NotAfterTransitive(a: string, b: string, c: string)
    requires NotAfter(a, b) && NotAfter(b, c)
    ensures NotAfter(a, c)
  {
    if a != b && b != c {
      BeforeTransitive(a, b, c);
    }
  }

  lemma BeforeNotAfter(a: string, b: string, c: string)
    requires Before(a, b) && NotAfter(b, c)
    ensures Before(a, c)
  {
    if b != c {
      BeforeTransitive(a, b, c);
    }
  }

  lemma NotAfterBefore(a: string, b: string, c: string)
    requires NotAfter(a, b) && Before(b, c)
    ensures Before(a, c)
  {
    if a != b {
      BeforeTransitive(a, b, c);
    }
  }

  // ---------------------------------------------------------------------------
  // Query options and the filter string.
  // ---------------------------------------------------------------------------

  datatype Checkpoint = Checkpoint(updated: string)

  /** The list options the handler passes to the record store. */
  datatype ListOptions = ListOptions(sort: string, filter: Option<string>)

  /** The record store's list call: page, page size and options. */
  datatype ListRequest = ListRequest(page: nat, perPage: nat, options: ListOptions)

  const NEWEST_FIRST := "-updated"
  const FILTER_PREFIX := "(updated>'"
  const FILTER_SUFFIX := "')"

  /** The filter that asks for records updated after `cursor`. */
  function FilterAfter(cursor: string): string {
    FILTER_PREFIX + cursor + FILTER_SUFFIX
  }

  /** Reads the cursor back out of a filter of the handler's shape. */
  function FilterCursor(filter: string): (cursor: Option<string>)
    ensures cursor.Some? ==> FilterAfter(cursor.value) == filter
  {
    if |filter| >= |FILTER_PREFIX| + |FILTER_SUFFIX|
       && filter[..|FILTER_PREFIX|] == FILTER_PREFIX
       && filter[|filter| - |FILTER_SUFFIX|..] == FILTER_SUFFIX
    then
      var cursor := filter[|FILTER_PREFIX|..|filter| - |FILTER_SUFFIX|];
      assert filter == filter[..|FILTER_PREFIX|] + cursor + filter[|filter| - |FILTER_SUFFIX|..];
      Some(cursor)
    else None
  }

  /** The filter string determines the cursor it was built from. */
  lemma FilterRoundTrip(cursor: string)
    ensures FilterCursor(FilterAfter(cursor)) == Some(cursor)
  {
    var f := FilterAfter(cursor);
    assert f[..|FILTER_PREFIX|] == FILTER_PREFIX;
    assert f[|f| - |FILTER_SUFFIX|..] == FILTER_SUFFIX;
    assert f[|FILTER_PREFIX|..|f| - |FILTER_SUFFIX|] == cursor;
  }

  /** The options built at the top of the pull handler. */
  function Options(checkpoint: Option<Checkpoint>): (o: ListOptions)
    ensures o.sort == NEWEST_FIRST
    ensures o.filter.Some? <==> checkpoint.Some?
    ensures checkpoint.Some? ==> FilterCursor(o.filter.value) == Some(checkpoint.value.updated)
  {
    if checkpoint.Some? then
      FilterRoundTrip(checkpoint.value.updated);
      ListOptions(NEWEST_FIRST, Some(FilterAfter(checkpoint.value.updated)))
    else ListOptions(NEWEST_FIRST, None)
  }

  /** The list call the handler issues: the first page of `batchSize` records. */
  function Request(checkpoint: Option<Checkpoint>, batchSize: nat): (q: ListRequest)
    ensures q.page == 1 && q.perPage == batchSize
    ensures q.options.filter.Some? <==> checkpoint.Some?
  {
    ListRequest(1, batchSize, Options(checkpoint))
  }

  // ---------------------------------------------------------------------------
  // What a page that honours the options looks like.
  // ---------------------------------------------------------------------------

  /** A record passes the options' filter (no filter passes everything). */
  predicate Passes(o: ListOptions, d: Donation) {
    match o.filter
    case None => true
    case Some(f) =>
      match FilterCursor(f)
      case Some(cursor) => Before(cursor, d.updated)
      case None => false
  }

  /** Adjacent records are in descending order of `updated`. */
  predicate NewestFirst(items: seq<Donation>) {
    forall i :: 0 < i < |items| ==> NotAfter(items[i].updated, items[i - 1].updated)
  }

  /** A page the record store may return for these options. */
  predicate Honours(o: ListOptions, items: seq<Donation>) {
    (o.sort == NEWEST_FIRST ==> NewestFirst(items)) &&
    forall i :: 0 <= i < |items| ==> Passes(o, items[i])
  }

  /** In a page sorted newest first, the first record is the newest. */
  lemma {:induction false} FirstIsNewest(items: seq<Donation>, k: nat)
    requires NewestFirst(items) && k < |items|
    ensures NotAfter(items[k].updated, items[0].updated)
  {
    if k > 0 {
      FirstIsNewest(items, k - 1);
      NotAfterTransitive(items[k].updated, items[k - 1].updated, items[0].updated);
    }
  }

  // ---------------------------------------------------------------------------
  // The handler's result.
  // ---------------------------------------------------------------------------

  /** A replicated document: the record with the `_deleted` flag added. */
  datatype Document = Document(record: Donation, deleted: bool)

  /** What a pull (or a live event) hands to the replication. */
  datatype Batch = Batch(documents: seq<Document>, checkpoint: Option<Checkpoint>)

  /** Each fetched record, in order, as a live (not deleted) document. */
  function AsDocuments(items: seq<Donation>): (docs: seq<Document>)
    ensures |docs| == |items|
    ensures forall i :: 0 <= i < |items| ==> docs[i].record == items[i] && !docs[i].deleted
  {
    if items == [] then [] else [Document(items[0], false)] + AsDocuments(items[1..])
  }

  /** Strips the `_deleted` flag again. */
  function Records(docs: seq<Document>): (items: seq<Donation>)
    ensures |items| == |docs|
    ensures forall i :: 0 <= i < |docs| ==> items[i] == docs[i].record
  {
    if docs == [] then [] else [docs[0].record] + Records(docs[1..])
  }

  /** Adding the flag loses nothing and reorders nothing. */
  lemma DocumentsRoundTrip(items: seq<Donation>)
    ensures Records(AsDocuments(items)) == items
  {
  }

  /** The pull handler, given the items the list call returned. */
  function Pull(checkpoint: Option<Checkpoint>, items: seq<Donation>): (b: Batch)
    ensures Records(b.documents) == items
    ensures forall i :: 0 <= i < |b.documents| ==> !b.documents[i].deleted
    ensures |items| > 0 ==> b.checkpoint == Some(Checkpoint(items[0].updated))
    ensures |items| == 0 ==> b.checkpoint == checkpoint
  {
    DocumentsRoundTrip(items);
    Batch(AsDocuments(items),
          if |items| > 0 then Some(Checkpoint(items[0].updated)) else checkpoint)
  }

  /** The live subscription callback's batch for one changed record. */
  function LiveBatch(record: Donation): (b: Batch)
    ensures b.documents == [Document(record, false)]
    ensures b.checkpoint == Some(Checkpoint(record.updated))
  {
    Batch([Document(record, false)], Some(Checkpoint(record.updated)))
  }

  /** A live event is the batch a pull returning only that record would give. */
  lemma LiveBatchIsSingletonPull(checkpoint: Option<Checkpoint>, record: Donation)
    ensures LiveBatch(record) == Pull(checkpoint, [record])
  {
    assert AsDocuments([record]) == [Document(record, false)];
  }

  // ---------------------------------------------------------------------------
  // Checkpoint monotonicity.
  // ---------------------------------------------------------------------------

  /** Checkpoint `b` is no earlier than checkpoint `a` (absent is earliest). */
  predicate NoEarlier(b: Option<Checkpoint>, a: Option<Checkpoint>) {
    a.None? || (b.Some? && NotAfter(a.value.updated, b.value.updated))
  }

  /**
   * When the store honours the options built from the checkpoint, the new
   * checkpoint covers every returned record and a non-empty page moves a
   * present checkpoint strictly forward.
   */
  lemma PullAdvances(checkpoint: Option<Checkpoint>, items: seq<Donation>)
    requires Honours(Options(checkpoint), items)
    ensures var next := Pull(checkpoint, items).checkpoint;
      && NoEarlier(next, checkpoint)
      && (forall i :: 0 <= i < |items| ==> next.Some? && NotAfter(items[i].updated, next.value.updated))
      && (|items| > 0 && checkpoint.Some? ==> Before(checkpoint.value.updated, next.value.updated))
  {
    var next := Pull(checkpoint, items).checkpoint;
    forall i | 0 <= i < |items|
      ensures next.Some? && NotAfter(items[i].updated, next.value.updated)
    {
      FirstIsNewest(items, i);
    }
    if |items| > 0 && checkpoint.Some? {
      assert Passes(Options(checkpoint), items[0]);
    }
  }

  /** The checkpoint after a run of pulls, one page per pull. */
  function AfterPulls(checkpoint: Option<Checkpoint>, pages: seq<seq<Donation>>): Option<Checkpoint>
    decreases |pages|
  {
    if pages == [] then checkpoint
    else AfterPulls(Pull(checkpoint, pages[0]).checkpoint, pages[1..])
  }

  /** Every page honours the options built from the checkpoint current at that pull. */
  predicate Served(checkpoint: Option<Checkpoint>, pages: seq<seq<Donation>>)
    decreases |pages|
  {
    pages == [] ||
    (Honours(Options(checkpoint), pages[0]) && Served(Pull(checkpoint, pages[0]).checkpoint, pages[1..]))
  }

  /** Over any run of pulls the checkpoint never moves backwards. */
  lemma {:induction false} CheckpointNeverRegresses(checkpoint: Option<Checkpoint>, pages: seq<seq<Donation>>)
    requires Served(checkpoint, pages)
    ensures NoEarlier(AfterPulls(checkpoint, pages), checkpoint)
    decreases |pages|
  {
    if pages != [] {
      var next := Pull(checkpoint, pages[0]).checkpoint;
      PullAdvances(checkpoint, pages[0]);
      CheckpointNeverRegresses(next, pages[1..]);
      var last := AfterPulls(next, pages[1..]);
      if checkpoint.Some? {
        NotAfterTransitive(checkpoint.value.updated, next.value.updated, last.value.updated);
      }
    }
  }

  /** A run of empty pages leaves the checkpoint exactly where it was. */
  lemma {:induction false} EmptyPullsKeepCheckpoint(checkpoint: Option<Checkpoint>, pages: seq<seq<Donation>>)
    requires forall i :: 0 <= i < |pages| ==> pages[i] == []
    ensures AfterPulls(checkpoint, pages) == checkpoint
  {
    if pages != [] {
      EmptyPullsKeepCheckpoint(checkpoint, pages[1..]);
    }
  }

  // ---------------------------------------------------------------------------
  // Paging through the whole store, as the handler does it.
  // ---------------------------------------------------------------------------

  /**
   * A page the list call may return from `store` for page 1 of `batchSize`
   * records: records of the store that pass the filter, newest first, at most
   * `batchSize` of them, and when a passing record is left out the page is
   * full and that record is no newer than the page's last one.
   */
  predicate IsNewestPage(store: seq<Donation>, checkpoint: Option<Checkpoint>, batchSize: nat,
                         items: seq<Donation>)
  {
    var o := Options(checkpoint);
    && Honours(o, items)
    && |items| <= batchSize
    && (forall i :: 0 <= i < |items| ==> items[i] in store)
    && (forall j :: 0 <= j < |store| && Passes(o, store[j]) && store[j] !in items ==>
          |items| == batchSize &&
          (items != [] ==> NotAfter(store[j].updated, items[|items| - 1].updated)))
  }

  /**
   * Once the checkpoint has reached `u`, every record of every later page
   * honouring the options is strictly newer than `u`: a record updated at or
   * before `u` is never pulled again.
   */
  lemma {:induction false} LeftBehind(checkpoint: Option<Checkpoint>, pages: seq<seq<Donation>>,
                                      r: Donation)
    requires checkpoint.Some? && NotAfter(r.updated, checkpoint.value.updated)
    requires Served(checkpoint, pages)
    ensures forall k, i :: 0 <= k < |pages| && 0 <= i < |pages[k]| ==>
      Before(r.updated, pages[k][i].updated) && pages[k][i] != r
    decreases |pages|
  {
    if pages != [] {
      var next := Pull(checkpoint, pages[0]).checkpoint;
      PullAdvances(checkpoint, pages[0]);
      BeforeIrreflexive(r.updated);
      forall i | 0 <= i < |pages[0]|
        ensures Before(r.updated, pages[0][i].updated)
      {
        assert Passes(Options(checkpoint), pages[0][i]);
        NotAfterBefore(r.updated, checkpoint.value.updated, pages[0][i].updated);
      }
      NotAfterTransitive(r.updated, checkpoint.value.updated, next.value.updated);
      LeftBehind(next, pages[1..], r);
      forall k, i | 0 <= k < |pages| && 0 <= i < |pages[k]|
        ensures Before(r.updated, pages[k][i].updated)
      {
        if k > 0 {
          assert pages[k] == pages[1..][k - 1];
        }
      }
    }
  }

  /**
   * Two records, updated at "2" and "1", pulled one at a time from no
   * checkpoint: the first page is the newer record alone, the checkpoint
   * becomes "2", and the older record is in no page of any later run.
   */
  lemma NewestFirstLosesRecord()
    ensures var a := Donation("a", "", "", 1.0, "", "2");
      var b := Donation("b", "", "", 1.0, "", "1");
      var next := Pull(None, [a]).checkpoint;
      && IsNewestPage([a, b], None, 1, [a])
      && next == Some(Checkpoint("2"))
      && (forall pages: seq<seq<Donation>>, k, i ::
            Served(next, pages) && 0 <= k < |pages| && 0 <= i < |pages[k]| ==> pages[k][i] != b)
  {
    var a := Donation("a", "", "", 1.0, "", "2");
    var b := Donation("b", "", "", 1.0, "", "1");
    var next := Pull(None, [a]).checkpoint;
    assert Before(b.updated, a.updated);
    forall pages: seq<seq<Donation>> | Served(next, pages)
      ensures forall k, i :: 0 <= k < |pages| && 0 <= i < |pages[k]| ==> pages[k][i] != b
    {
      LeftBehind(next, pages, b);
    }
  }

  // ---------------------------------------------------------------------------
  // The paging rule the replication protocol expects: oldest first, with the
  // cursor at the last record returned and `id` breaking ties in `updated`.
  // ---------------------------------------------------------------------------

  datatype Cursor = Cursor(updated: string, id: string)

  function KeyOf(d: Donation): Cursor {
    Cursor(d.updated, d.id)
  }

  /** Cursor order: by `updated`, then by `id` among equal timestamps. */
  predicate KeyBefore(a: Cursor, b: Cursor) {
    Before(a.updated, b.updated) || (a.updated == b.updated && Before(a.id, b.id))
  }

  lemma KeyBeforeIrreflexive(a: Cursor)
    ensures !KeyBefore(a, a)
  {
    BeforeIrreflexive(a.updated);
    BeforeIrreflexive(a.id);
  }

  lemma KeyBeforeTransitive(a: Cursor, b: Cursor, c: Cursor)
    requires KeyBefore(a, b) && KeyBefore(b, c)
    ensures KeyBefore(a, c)
  {
    if Before(a.updated, b.updated) && Before(b.updated, c.updated) {
      BeforeTransitive(a.updated, b.updated, c.updated);
    } else if a.updated == b.updated && b.updated == c.updated {
      BeforeTransitive(a.id, b.id, c.id);
    }
  }

  /** A record is past the cursor (every record is past an absent cursor). */
  predicate PastCursor(cursor: Option<Cursor>, d: Donation) {
    cursor.None? || KeyBefore(cursor.value, KeyOf(d))
  }

  /**
   * A page of the corrected rule: records of the store past the cursor, in
   * strictly ascending key order, at most `batchSize` of them, and when a
   * record past the cursor is left out the page is full and that record comes
   * after the page's last one.
   */
  predicate IsOldestPage(store: seq<Donation>, cursor: Option<Cursor>, batchSize: nat,
                         items: seq<Donation>)
  {
    && |items| <= batchSize
    && (forall i :: 0 <= i < |items| ==> items[i] in store && PastCursor(cursor, items[i]))
    && (forall i :: 0 < i < |items| ==> KeyBefore(KeyOf(items[i - 1]), KeyOf(items[i])))
    && (forall j :: 0 <= j < |store| && PastCursor(cursor, store[j]) && store[j] !in items ==>
          |items| == batchSize &&
          (items != [] ==> KeyBefore(KeyOf(items[|items| - 1]), KeyOf(store[j]))))
  }

  /** The corrected next cursor: the key of the page's last record, or the old cursor. */
  function NextCursor(cursor: Option<Cursor>, items: seq<Donation>): Option<Cursor> {
    if items == [] then cursor else Some(KeyOf(items[|items| - 1]))
  }

  /** In an ascending page every record's key is at or before the last one's. */
  lemma {:induction false} LastIsNewest(items: seq<Donation>, k: nat)
    requires forall i :: 0 < i < |items| ==> KeyBefore(KeyOf(items[i - 1]), KeyOf(items[i]))
    requires k < |items|
    ensures k == |items| - 1 || KeyBefore(KeyOf(items[k]), KeyOf(items[|items| - 1]))
    decreases |items| - k
  {
    if k < |items| - 1 {
      LastIsNewest(items, k + 1);
      if k + 1 < |items| - 1 {
        KeyBeforeTransitive(KeyOf(items[k]), KeyOf(items[k + 1]), KeyOf(items[|items| - 1]));
      }
    }
  }

  /**
   * One corrected pull skips nothing: every record of the store past the old
   * cursor is on the page or still past the new cursor, a page shorter than
   * `batchSize` holds every record past the cursor, and a non-empty page moves
   * the cursor strictly forward to cover every record on it.
   */
  lemma OldestPageSkipsNothing(store: seq<Donation>, cursor: Option<Cursor>, batchSize: nat,
                               items: seq<Donation>)
    requires IsOldestPage(store, cursor, batchSize, items)
    ensures var next := NextCursor(cursor, items);
      && (forall j :: 0 <= j < |store| && PastCursor(cursor, store[j]) ==>
            store[j] in items || PastCursor(next, store[j]))
      && (|items| < batchSize ==>
            forall j :: 0 <= j < |store| && PastCursor(cursor, store[j]) ==> store[j] in items)
      && (items != [] ==> next.Some? && PastCursor(cursor, items[|items| - 1]))
      && (forall i :: 0 <= i < |items| ==> !PastCursor(next, items[i]))
  {
    var next := NextCursor(cursor, items);
    forall i | 0 <= i < |items|
      ensures !PastCursor(next, items[i])
    {
      LastIsNewest(items, i);
      KeyBeforeIrreflexive(KeyOf(items[i]));
      if i < |items| - 1 {
        if KeyBefore(next.value, KeyOf(items[i])) {
          KeyBeforeTransitive(next.value, KeyOf(items[i]), next.value);
          KeyBeforeIrreflexive(next.value);
        }
      }
    }
  }

  /** Every page is a corrected page for the cursor current at that pull. */
  predicate ServedOldest(store: seq<Donation>, cursor: Option<Cursor>, batchSize: nat,
                         pages: seq<seq<Donation>>)
    decreases |pages|
  {
    pages == [] ||
    (IsOldestPage(store, cursor, batchSize, pages[0]) &&
     ServedOldest(store, NextCursor(cursor, pages[0]), batchSize, pages[1..]))
  }

  /**
   * A run of corrected pulls that ends with a page shorter than `batchSize`
   * (where replication stops asking) has delivered every record of the store
   * that was past the cursor it started from.
   */
  lemma {:induction false} OldestPullsDeliverAll(store: seq<Donation>, cursor: Option<Cursor>,
                                                 batchSize: nat, pages: seq<seq<Donation>>)
    requires ServedOldest(store, cursor, batchSize, pages)
    requires pages != [] && |pages[|pages| - 1]| < batchSize
    ensures forall j :: 0 <= j < |store| && PastCursor(cursor, store[j]) ==>
      exists k :: 0 <= k < |pages| && store[j] in pages[k]
    decreases |pages|
  {
    OldestPageSkipsNothing(store, cursor, batchSize, pages[0]);
    if |pages| > 1 {
      var rest := pages[1..];
      assert rest[|rest| - 1] == pages[|pages| - 1];
      OldestPullsDeliverAll(store, NextCursor(cursor, pages[0]), batchSize, rest);
      forall j | 0 <= j < |store| && PastCursor(cursor, store[j])
        ensures exists k :: 0 <= k < |pages| && store[j] in pages[k]
      {
        if store[j] !in pages[0] {
          var k :| 0 <= k < |rest| && store[j] in rest[k];
          assert store[j] in pages[k + 1];
        }
      }
    }
  }

  /** The indices of the store's records past the cursor. */
  function Remaining(store: seq<Donation>, cursor: Option<Cursor>): set<nat> {
    set j: nat | j < |store| && PastCursor(cursor, store[j])
  }

  lemma {:induction false} SubsetSmaller(a: set<nat>, b: set<nat>, x: nat)
    requires a <= b && x in b && x !in a
    ensures |a| < |b|
    decreases |b|
  {
    var rest := b - {x};
    if a == rest {
    } else {
      var y :| y in rest && y !in a;
      SubsetSmaller(a, rest, y);
    }
  }

  /** A non-empty corrected page leaves strictly fewer records past the cursor. */
  lemma NonEmptyPageShrinks(store: seq<Donation>, cursor: Option<Cursor>, batchSize: nat,
                            items: seq<Donation>)
    requires IsOldestPage(store, cursor, batchSize, items) && items != []
    ensures |Remaining(store, NextCursor(cursor, items))| < |Remaining(store, cursor)|
  {
    var next := NextCursor(cursor, items);
    var last := items[|items| - 1];
    forall j: nat | j in Remaining(store, next)
      ensures j in Remaining(store, cursor)
    {
      if cursor.Some? {
        KeyBeforeTransitive(cursor.value, next.value, KeyOf(store[j]));
      }
    }
    assert last in store;
    var j0: nat :| j0 < |store| && store[j0] == last;
    KeyBeforeIrreflexive(KeyOf(last));
    SubsetSmaller(Remaining(store, next), Remaining(store, cursor), j0);
  }

  /**
   * Eventual delivery: with pages of at least one record, any run of more
   * corrected pulls than there are records past the cursor delivers every one
   * of them.
   */
  lemma {:induction false} OldestPullsEventuallyDeliver(store: seq<Donation>, cursor: Option<Cursor>,
                                                        batchSize: nat, pages: seq<seq<Donation>>)
    requires batchSize > 0 && ServedOldest(store, cursor, batchSize, pages)
    requires |pages| > |Remaining(store, cursor)|
    ensures forall j :: 0 <= j < |store| && PastCursor(cursor, store[j]) ==>
      exists k :: 0 <= k < |pages| && store[j] in pages[k]
    decreases |pages|
  {
    OldestPageSkipsNothing(store, cursor, batchSize, pages[0]);
    if pages[0] != [] {
      var rest := pages[1..];
      NonEmptyPageShrinks(store, cursor, batchSize, pages[0]);
      OldestPullsEventuallyDeliver(store, NextCursor(cursor, pages[0]), batchSize, rest);
      forall j | 0 <= j < |store| && PastCursor(cursor, store[j])
        ensures exists k :: 0 <= k < |pages| && store[j] in pages[k]
      {
        if store[j] !in pages[0] {
          var k :| 0 <= k < |rest| && store[j] in rest[k];
          assert store[j] in pages[k + 1];
        }
      }
    }
  }
}
