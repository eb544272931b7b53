/** run (tools/import_foods.js:54-74): normalize every element of the parsed foods.json array,
    skip those without a title, stage each remaining document under a fresh reference in one
    Firestore write batch, and call `commit()` whenever the running count reaches a multiple
    of the capacity and once more at the end for a partial batch. */
module FoodImport {
  import opened JsValues
  import opened Foods
  import opened Batching

  /** The capacity the source uses in `count % 400` (lines 64 and 69). */
  const BatchLimit: nat := 400

  /** A generated document reference of the `foods` collection. */
  type Ref = nat

  /** One `batch.set(ref, data, { merge: true })`. */
  datatype Write = Write(ref: Ref, data: Food)

  /** The Firestore handle `db`: it hands out document references and keeps, for each
      `commit()` made through it, the writes that commit delivered. */
  class Store {
    /** References handed out so far are 0 .. issued - 1. */
    var issued: nat
    /** For each `commit()` call, in order, the writes its batch held. */
    var log: seq<seq<Write>>

    constructor ()
      ensures issued == 0 && log == []
    {
      issued := 0;
      log := [];
    }

    /** `db.collection('foods').doc()`: a reference never handed out before. */
    method Doc() returns (r: Ref)
      modifies this
      ensures r == old(issued) && issued == old(issued) + 1
      ensures log == old(log)
    {
      r := issued;
      issued := issued + 1;
    }
  }

  /** A write batch from `db.batch()`. `commit()` does not empty it: whatever it holds is
      delivered again by a later `commit()`. */
  class WriteBatch {
    const db: Store
    /** Every `set` call on this batch, in order. */
    var writes: seq<Write>
    /** `commit()` has been called on this batch. */
    var committed: bool
    /** `set` calls made after the batch was first committed. */
    var lateWrites: nat

    constructor (db: Store)
      ensures this.db == db && writes == [] && !committed && lateWrites == 0
    {
      this.db := db;
      writes := [];
      committed := false;
      lateWrites := 0;
    }

    /** `batch.set(ref, data, { merge: true })`. */
    method Set(ref: Ref, data: Food)
      modifies this
      ensures writes == old(writes) + [Write(ref, data)]
      ensures committed == old(committed)
      ensures lateWrites == old(lateWrites) + (if old(committed) then 1 else 0)
    {
      if committed {
        lateWrites := lateWrites + 1;
      }
      writes := writes + [Write(ref, data)];
    }

    /** `batch.commit()`: the store receives every write the batch holds. */
    method Commit()
      modifies this, db
      ensures db.log == old(db.log) + [old(writes)] && db.issued == old(db.issued)
      ensures committed && writes == old(writes) && lateWrites == old(lateWrites)
    {
      db.log := db.log + [writes];
      committed := true;
    }
  }

  // ---------------------------------------------------------------------------------------
  // What the loop keeps

  /** The per-element conversion the loop applies: normalizeFood in run (see Import). The loop
      and the lemmas about what it keeps hold for any such conversion. */
  type Normalizer = JsValue -> Result<Food>

  /** What one array element contributes to the import: its normalized document when that has
      a title (line 60), nothing otherwise. */
  function Keep(normalize: Normalizer, doc: JsValue): (r: seq<Food>)
    ensures |r| <= 1
    ensures r != [] <==> normalize(doc).Ok? && normalize(doc).value.title != ""
    ensures r != [] ==> r[0] == normalize(doc).value
  {
    match normalize(doc)
    case Ok(f) => if f.title != "" then [f] else []
    case TypeError => []
  }

  /** The normalized documents of docs that have a title, in input order. */
  function Kept(normalize: Normalizer, docs: seq<JsValue>): (r: seq<Food>)
    ensures |r| <= |docs|
  {
    if docs == [] then [] else Kept(normalize, docs[..|docs| - 1]) + Keep(normalize, docs[|docs| - 1])
  }

  /** How many elements the loop gets through before the conversion throws (|docs| when it
      never does). */
  function Processed(normalize: Normalizer, docs: seq<JsValue>): (n: nat)
    ensures n <= |docs|
    ensures forall k :: 0 <= k < n ==> normalize(docs[k]).Ok?
    ensures n < |docs| ==> normalize(docs[n]).TypeError?
  {
    if docs == [] || normalize(docs[0]).TypeError? then 0 else 1 + Processed(normalize, docs[1..])
  }

  /** With normalizeFood, the loop stops exactly at the first element that is `null` or
      `undefined` or has a converted field whose conversion throws. */
  lemma ProcessedStopsAtFirstThrow(docs: seq<JsValue>)
    ensures var n := Processed(NormalizeFood, docs);
      && (forall k :: 0 <= k < n ==> !NormalizeThrows(docs[k]))
      && (n < |docs| ==> NormalizeThrows(docs[n]))
  {
    var n := Processed(NormalizeFood, docs);
    forall k | 0 <= k < n ensures !NormalizeThrows(docs[k]) {
      assert NormalizeFood(docs[k]).Ok?;
    }
    if n < |docs| {
      assert NormalizeFood(docs[n]).TypeError?;
    }
  }

  /** The writes that stage docs in order under the references lo, lo + 1, ...: what the loop
      makes of the documents it keeps, each db.doc() handing out the next reference. */
  function Staged(lo: nat, docs: seq<Food>): (ws: seq<Write>)
    ensures |ws| == |docs|
  {
    if docs == [] then [] else Staged(lo, docs[..|docs| - 1]) + [Write(lo + |docs| - 1, docs[|docs| - 1])]
  }

  /** Staging one more document appends one write under the next reference. */
  lemma StagedAppend(lo: nat, docs: seq<Food>, f: Food)
    ensures Staged(lo, docs + [f]) == Staged(lo, docs) + [Write(lo + |docs|, f)]
  {
    assert (docs + [f])[..|docs|] == docs;
  }

  /** The k-th write stages the k-th document under reference lo + k; so the references are
      pairwise distinct and all lie in [lo, lo + |docs|). */
  lemma {:induction false} StagedWrites(lo: nat, docs: seq<Food>)
    ensures forall k :: 0 <= k < |docs| ==> Staged(lo, docs)[k] == Write(lo + k, docs[k])
    ensures forall i, j :: 0 <= i < j < |docs| ==> Staged(lo, docs)[i].ref != Staged(lo, docs)[j].ref
    ensures forall k :: 0 <= k < |docs| ==> lo <= Staged(lo, docs)[k].ref < lo + |docs|
  {
    if docs != [] {
      var n := |docs|;
      var p := docs[..n - 1];
      StagedWrites(lo, p);
      var ws := Staged(lo, docs);
      assert ws == Staged(lo, p) + [Write(lo + n - 1, docs[n - 1])];
      forall k | 0 <= k < n ensures ws[k] == Write(lo + k, docs[k]) {
        if k < n - 1 {
          assert ws[k] == Staged(lo, p)[k] && p[k] == docs[k];
        }
      }
    }
  }

  /** Kept distributes over concatenation: the documents kept from a + b are those kept from
      a followed by those kept from b. */
  lemma {:induction false} KeptAppend(normalize: Normalizer, a: seq<JsValue>, b: seq<JsValue>)
    ensures Kept(normalize, a + b) == Kept(normalize, a) + Kept(normalize, b)
    decreases |b|
  {
    if b == [] {
      assert a + b == a;
    } else {
      var b' := b[..|b| - 1];
      assert (a + b)[..|a + b| - 1] == a + b';
      KeptAppend(normalize, a, b');
    }
  }

  /** Every kept document is the normalization of an element with a title. */
  lemma {:induction false} KeptComesFromTitledElements(normalize: Normalizer, docs: seq<JsValue>)
    ensures forall f :: f in Kept(normalize, docs) ==>
      exists k :: 0 <= k < |docs| && normalize(docs[k]) == Ok(f) && f.title != ""
  {
    if docs != [] {
      var p := docs[..|docs| - 1];
      KeptComesFromTitledElements(normalize, p);
      forall f | f in Kept(normalize, docs)
        ensures exists k :: 0 <= k < |docs| && normalize(docs[k]) == Ok(f) && f.title != ""
      {
        if f in Kept(normalize, p) {
          var k :| 0 <= k < |p| && normalize(p[k]) == Ok(f) && f.title != "";
          assert docs[k] == p[k];
        } else {
          assert normalize(docs[|docs| - 1]) == Ok(f);
        }
      }
    }
  }

  /** When every element normalizes to a document with a title, all of them are kept, in
      order. */
  lemma {:induction false} AllTitledAllKept(normalize: Normalizer, docs: seq<JsValue>)
    requires forall k :: 0 <= k < |docs| ==>
      normalize(docs[k]).Ok? && normalize(docs[k]).value.title != ""
    ensures |Kept(normalize, docs)| == |docs|
    ensures forall k :: 0 <= k < |docs| ==> Kept(normalize, docs)[k] == normalize(docs[k]).value
  {
    if docs != [] {
      var n := |docs|;
      var p := docs[..n - 1];
      assert forall k :: 0 <= k < |p| ==> p[k] == docs[k];
      AllTitledAllKept(normalize, p);
      var last := normalize(docs[n - 1]).value;
      var r := Kept(normalize, docs);
      assert r == Kept(normalize, p) + [last];
      forall k | 0 <= k < n ensures r[k] == normalize(docs[k]).value {
        if k < n - 1 {
          assert r[k] == Kept(normalize, p)[k];
        }
      }
    }
  }

  /** The number of elements that normalize to a document with a title, counted from the
      front: an independent reference for the final count. */
  function TitledCount(normalize: Normalizer, docs: seq<JsValue>): (n: nat)
    ensures n <= |docs|
  {
    if docs == [] then 0
    else
      var first := if normalize(docs[0]).Ok? && normalize(docs[0]).value.title != "" then 1 else 0;
      first + TitledCount(normalize, docs[1..])
  }

  /** As many documents are kept as there are elements with a title. */
  lemma {:induction false} KeptCount(normalize: Normalizer, docs: seq<JsValue>)
    ensures |Kept(normalize, docs)| == TitledCount(normalize, docs)
  {
    if docs != [] {
      KeptCount(normalize, docs[1..]);
      KeptAppend(normalize, [docs[0]], docs[1..]);
      assert [docs[0]] + docs[1..] == docs;
      assert [docs[0]][..0] == [];
    }
  }

  /** After normalizeFood, every kept document has a non-blank, trimmed title and carries the
      server timestamp marker. */
  lemma KeptDocumentsAreNormalized(docs: seq<JsValue>)
    ensures forall f :: f in Kept(NormalizeFood, docs) ==>
      f.title != "" && IsTrimmed(f.title) && f.updatedAt == ServerTimestamp
  {
    KeptComesFromTitledElements(NormalizeFood, docs);
    forall f | f in Kept(NormalizeFood, docs)
      ensures f.title != "" && IsTrimmed(f.title) && f.updatedAt == ServerTimestamp
    {
      var k :| 0 <= k < |docs| && NormalizeFood(docs[k]) == Ok(f) && f.title != "";
    }
  }

  // ---------------------------------------------------------------------------------------
  // The loop of run

  /** The state of run once the documents kept so far are staged (the invariant of the loop
      of lines 58-67): the batch holds their writes, under consecutive fresh references, and
      the store has received exactly the commits made when the count reached a multiple of B,
      each delivering the whole batch as it then stood. */
  ghost predicate Loaded(db: Store, batch: WriteBatch, B: nat, lo: nat, log0: seq<seq<Write>>,
                         kept: seq<Food>, count: nat)
    reads db, batch
  {
    && B > 0 && batch.db == db
    && batch.writes == Staged(lo, kept) && count == |kept| && db.issued == lo + count
    && db.log == log0 + InLoopCommits(batch.writes, B)
    && (batch.committed <==> count >= B)
    && batch.lateWrites == (if count > B then count - B else 0)
  }

  /** run(): the loop of lines 58-67 and the final flush of lines 69-71, with capacity B and
      conversion normalize. A thrown TypeError ends the run at that element (ok is false): the
      commits already made stand and the final flush is not reached. */
  method Run(db: Store, foods: seq<JsValue>, B: nat, normalize: Normalizer)
    returns (batch: WriteBatch, count: nat, ok: bool)
    requires B > 0
    modifies db
    ensures fresh(batch) && batch.db == db
    ensures ok <==> Processed(normalize, foods) == |foods|
    ensures batch.writes == Staged(old(db.issued), Kept(normalize, foods[..Processed(normalize, foods)]))
    ensures count == |batch.writes| && db.issued == old(db.issued) + count
    ensures db.log == old(db.log) + CommitLog(batch.writes, B, ok)
    ensures batch.committed <==> |db.log| > |old(db.log)|
    ensures batch.lateWrites == if count > B then count - B else 0
  {
    batch := new WriteBatch(db);
    count := 0;
    ok := true;
    var i := 0;
    while i < |foods|
      invariant i <= Processed(normalize, foods)
      invariant Loaded(db, batch, B, old(db.issued), old(db.log), Kept(normalize, foods[..i]), count)
    {
      var normalized := normalize(foods[i]);
      if normalized.TypeError? {
        assert i == Processed(normalize, foods);
        ok := false;
        break;
      }
      ProcessedPast(normalize, foods, i);
      KeptStep(normalize, foods, i, normalized.value);
      count := Stage(db, batch, count, normalized.value, B, old(db.issued), old(db.log), Kept(normalize, foods[..i]));
      i := i + 1;
    }
    assert i == Processed(normalize, foods);
    if ok {
      assert foods[..i] == foods;
      Flush(db, batch, count, B, old(db.issued), old(db.log), Kept(normalize, foods[..i]));
    } else {
      NoCommits(batch.writes, B, false);
    }
  }

  /** What the loop body does with a document it did not throw on (lines 60-66): skip it when its
      title is empty; otherwise stage it under a reference never handed out before, count it,
      and commit when the count reaches a multiple of B. */
  method Stage(db: Store, batch: WriteBatch, count: nat, data: Food, B: nat,
               ghost lo: nat, ghost log0: seq<seq<Write>>, ghost kept: seq<Food>) returns (next: nat)
    requires Loaded(db, batch, B, lo, log0, kept, count)
    modifies db, batch
    ensures Loaded(db, batch, B, lo, log0, kept + (if data.title != "" then [data] else []), next)
  {
    if data.title == "" {
      assert kept + [] == kept;
      return count;
    }
    StagedAppend(lo, kept, data);
    InLoopCommitsAppend(batch.writes, Write(db.issued, data), B);
    if count < B {
      ReachesCapacity(count + 1, B);
    }
    var ref := db.Doc();
    batch.Set(ref, data);
    next := count + 1;
    if next % B == 0 {
      batch.Commit();
    }
  }

  /** The flush after the loop (lines 69-71): one more commit unless the count is a multiple of
      B. The store has then received CommitLog(writes, B, true), and the batch has been
      committed exactly when the store received something. */
  method Flush(db: Store, batch: WriteBatch, count: nat, B: nat,
               ghost lo: nat, ghost log0: seq<seq<Write>>, ghost kept: seq<Food>)
    requires Loaded(db, batch, B, lo, log0, kept, count)
    modifies db, batch
    ensures batch.writes == old(batch.writes) && db.issued == old(db.issued)
    ensures batch.lateWrites == old(batch.lateWrites)
    ensures db.log == log0 + CommitLog(batch.writes, B, true)
    ensures batch.committed <==> |db.log| > |log0|
  {
    if count % B != 0 {
      batch.Commit();
    }
    NoCommits(batch.writes, B, true);
    if 0 < count < B {
      ReachesCapacity(count, B);
    }
  }

  /** run() itself: the loop with normalizeFood and the capacity 400. */
  method Import(db: Store, foods: seq<JsValue>) returns (batch: WriteBatch, count: nat, ok: bool)
    modifies db
    ensures fresh(batch) && batch.db == db
    ensures ok <==> forall k :: 0 <= k < |foods| ==> !NormalizeThrows(foods[k])
    ensures batch.writes == Staged(old(db.issued), Kept(NormalizeFood, foods[..Processed(NormalizeFood, foods)]))
    ensures count == |batch.writes| && db.issued == old(db.issued) + count
    ensures db.log == old(db.log) + CommitLog(batch.writes, BatchLimit, ok)
    ensures ok ==> count == TitledCount(NormalizeFood, foods)
  {
    batch, count, ok := Run(db, foods, BatchLimit, NormalizeFood);
    ProcessedStopsAtFirstThrow(foods);
    FinishedRunCount(NormalizeFood, foods);
  }

  /** A run that gets through every element keeps one document per element with a title. */
  lemma FinishedRunCount(normalize: Normalizer, docs: seq<JsValue>)
    ensures Processed(normalize, docs) == |docs| ==>
      |Kept(normalize, docs[..Processed(normalize, docs)])| == TitledCount(normalize, docs)
  {
    if Processed(normalize, docs) == |docs| {
      assert docs[..|docs|] == docs;
      KeptCount(normalize, docs);
    }
  }

  /** An element that converts without throwing lets the loop past it. */
  lemma ProcessedPast(normalize: Normalizer, docs: seq<JsValue>, i: nat)
    requires i <= Processed(normalize, docs) && i < |docs| && normalize(docs[i]).Ok?
    ensures i + 1 <= Processed(normalize, docs)
  {
  }

  /** One more element adds its normalized document when that has a title, and nothing
      otherwise. */
  lemma KeptStep(normalize: Normalizer, docs: seq<JsValue>, i: nat, data: Food)
    requires i < |docs| && normalize(docs[i]) == Ok(data)
    ensures Kept(normalize, docs[..i + 1]) ==
      Kept(normalize, docs[..i]) + (if data.title != "" then [data] else [])
  {
    assert docs[..i + 1][..i] == docs[..i];
    assert Keep(normalize, docs[i]) == (if data.title != "" then [data] else []);
  }

  // ---------------------------------------------------------------------------------------
  // The loop with a new batch after each commit

  /** The invariant of the loop that starts a new `db.batch()` after every in-loop commit: done
      holds the writes already delivered, in chunks of B, and the current batch, never yet
      committed, holds the fewer than B writes staged since. */
  ghost predicate LoadedFresh(db: Store, batch: WriteBatch, B: nat, lo: nat, log0: seq<seq<Write>>,
                              kept: seq<Food>, count: nat, done: seq<Write>)
    reads db, batch
  {
    && B > 0 && batch.db == db && !batch.committed
    && Staged(lo, kept) == done + batch.writes && count == |kept| && db.issued == lo + count
    && |done| % B == 0 && |batch.writes| < B
    && db.log == log0 + Chunks(done, B)
  }

  /** The same loop with a fresh `db.batch()` started after every in-loop commit: each commit
      then delivers only the writes staged since the previous one. */
  method RunFreshBatches(db: Store, foods: seq<JsValue>, B: nat, normalize: Normalizer)
    returns (count: nat, ok: bool)
    requires B > 0
    modifies db
    ensures ok <==> Processed(normalize, foods) == |foods|
    ensures var staged := Staged(old(db.issued), Kept(normalize, foods[..Processed(normalize, foods)]));
      && count == |staged| && db.issued == old(db.issued) + count
      && db.log == old(db.log) + Chunks(if ok then staged else WholeChunks(staged, B), B)
  {
    var batch;
    ghost var done;
    batch, count, ok, done := StageAllFresh(db, foods, B, normalize);
    ghost var kept := Kept(normalize, foods[..Processed(normalize, foods)]);
    if ok {
      assert foods[..Processed(normalize, foods)] == foods;
      FlushFresh(db, batch, count, B, old(db.issued), old(db.log), kept, done);
    } else {
      DoneIsWholeChunks(Staged(old(db.issued), kept), done, batch.writes, B);
    }
  }

  /** Lines 58-67 with a new batch after each commit: the documents before the first one that
      throws (all of them when none does) are staged, and the current batch is left holding the
      writes of the last, unfinished chunk. */
  method StageAllFresh(db: Store, foods: seq<JsValue>, B: nat, normalize: Normalizer)
    returns (batch: WriteBatch, count: nat, ok: bool, ghost done: seq<Write>)
    requires B > 0
    modifies db
    ensures fresh(batch)
    ensures ok <==> Processed(normalize, foods) == |foods|
    ensures LoadedFresh(db, batch, B, old(db.issued), old(db.log),
                        Kept(normalize, foods[..Processed(normalize, foods)]), count, done)
  {
    batch := new WriteBatch(db);
    count := 0;
    ok := true;
    done := [];
    var i := 0;
    while i < |foods|
      invariant fresh(batch)
      invariant i <= Processed(normalize, foods)
      invariant LoadedFresh(db, batch, B, old(db.issued), old(db.log), Kept(normalize, foods[..i]), count, done)
    {
      var normalized := normalize(foods[i]);
      if normalized.TypeError? {
        assert i == Processed(normalize, foods);
        ok := false;
        break;
      }
      ProcessedPast(normalize, foods, i);
      KeptStep(normalize, foods, i, normalized.value);
      count, batch, done := StageFresh(db, batch, count, normalized.value, B, old(db.issued), old(db.log),
                                       Kept(normalize, foods[..i]), done);
      i := i + 1;
    }
    assert i == Processed(normalize, foods);
  }

  /** Lines 69-71 on the current batch: commit it when it holds writes. */
  method FlushFresh(db: Store, batch: WriteBatch, count: nat, B: nat,
                    ghost lo: nat, ghost log0: seq<seq<Write>>, ghost kept: seq<Food>, ghost done: seq<Write>)
    requires LoadedFresh(db, batch, B, lo, log0, kept, count, done)
    modifies db, batch
    ensures db.issued == old(db.issued)
    ensures db.log == log0 + Chunks(Staged(lo, kept), B)
  {
    CountModIsBatchSize(count, |done|, |batch.writes|, B);
    if count % B != 0 {
      ChunksAppend(done, batch.writes, B);
      batch.Commit();
    } else {
      assert Staged(lo, kept) == done;
    }
  }

  /** The writes delivered in whole chunks are the longest whole-chunk prefix of the staged
      ones. */
  lemma DoneIsWholeChunks(staged: seq<Write>, done: seq<Write>, current: seq<Write>, B: nat)
    requires B > 0 && staged == done + current && |done| % B == 0 && |current| < B
    ensures WholeChunks(staged, B) == done
  {
    CountModIsBatchSize(|staged|, |done|, |current|, B);
    assert staged[..|done|] == done;
  }

  /** Lines 60-66 with a new batch after each commit: skip an untitled document; otherwise
      stage it, count it, and on reaching a multiple of B commit the current batch and continue
      in a new one. */
  method StageFresh(db: Store, batch: WriteBatch, count: nat, data: Food, B: nat,
                    ghost lo: nat, ghost log0: seq<seq<Write>>, ghost kept: seq<Food>, ghost done: seq<Write>)
    returns (next: nat, current: WriteBatch, ghost done': seq<Write>)
    requires LoadedFresh(db, batch, B, lo, log0, kept, count, done)
    modifies db, batch
    ensures current == batch || fresh(current)
    ensures LoadedFresh(db, current, B, lo, log0, kept + (if data.title != "" then [data] else []), next, done')
  {
    if data.title == "" {
      assert kept + [] == kept;
      return count, batch, done;
    }
    StagedAppend(lo, kept, data);
    CountModIsBatchSize(count + 1, |done|, |batch.writes| + 1, B);
    if (count + 1) % B == 0 {
      ChunksAppend(done, batch.writes + [Write(db.issued, data)], B);
    }
    var ref := db.Doc();
    batch.Set(ref, data);
    next := count + 1;
    current, done' := batch, done;
    if next % B == 0 {
      batch.Commit();
      done' := done + batch.writes;
      current := new WriteBatch(db);
    }
  }

  /** With a whole number of full batches done before the current one, the running count
      modulo B is the size of the current batch, or 0 when it has just become full. */
  lemma CountModIsBatchSize(count: nat, done: nat, current: nat, B: nat)
    requires B > 0 && done % B == 0 && current <= B && count == done + current
    ensures count % B == (if current == B then 0 else current)
  {
    DivModUnique(done, done / B, 0, B);
    if current == B {
      DivModUnique(count, done / B + 1, 0, B);
    } else {
      DivModUnique(count, done / B, current, B);
    }
  }

  // ---------------------------------------------------------------------------------------
  // The source's boundary cases, with its capacity of 400

  /** An empty array: no commit at all. */
  lemma EmptyImportCommitsNothing()
    ensures Kept(NormalizeFood, []) == [] && CommitLog<Write>([], BatchLimit, true) == []
  {
  }

  /** Exactly 400 kept documents: one commit, made inside the loop, and no trailing one. */
  lemma FullBatchCommitsOnce(ws: seq<Write>)
    requires |ws| == BatchLimit
    ensures CommitLog(ws, BatchLimit, true) == [ws]
  {
    SingleCommitCarriesAll(ws, BatchLimit);
  }

  /** 401 kept documents: two commits, at count 400 and at the end, the second (on the same
      batch) delivering all 401 writes. */
  lemma OneOverCommitsTwice(ws: seq<Write>)
    requires |ws| == BatchLimit + 1
    ensures CommitLog(ws, BatchLimit, true) == [ws[..BatchLimit], ws]
    ensures Chunks(ws, BatchLimit) == [ws[..BatchLimit], ws[BatchLimit..]]
  {
    ReusedBatchRecommits(ws, BatchLimit);
  }

  /** A whitespace-only title is skipped and "Soup" is kept: one document imported. */
  lemma BlankTitleSkipped()
    ensures Kept(NormalizeFood, [Obj(map["title" := Str("  ")]), Obj(map["title" := Str("Soup")])]) ==
      [Food("Soup", "", "", "", "", "", Int(0), Int(0), Int(0), [], [], ServerTimestamp)]
  {
    BlankAndSoup();
    BlankThenTitled("  ", "Soup");
  }

  /** "  " is whitespace only; "Soup" is not, and has nothing to trim. */
  lemma BlankAndSoup()
    ensures AllWhiteSpace("  ") && !AllWhiteSpace("Soup") && IsTrimmed("Soup")
  {
    assert "Soup"[0] == 'S' && "Soup"[3] == 'p';
  }

  /** Of a record with a whitespace-only title followed by one with a trimmed non-blank title,
      only the second is kept. */
  lemma BlankThenTitled(blank: string, title: string)
    requires AllWhiteSpace(blank) && !AllWhiteSpace(title) && IsTrimmed(title)
    ensures Kept(NormalizeFood, [Obj(map["title" := Str(blank)]), Obj(map["title" := Str(title)])]) ==
      [Food(title, "", "", "", "", "", Int(0), Int(0), Int(0), [], [], ServerTimestamp)]
  {
    TitleOnlyRecord(blank);
    TitleOnlyRecord(title);
    KeptPair(NormalizeFood, Obj(map["title" := Str(blank)]), Obj(map["title" := Str(title)]));
  }

  /** Two elements contribute what each contributes, in order. */
  lemma KeptPair(normalize: Normalizer, a: JsValue, b: JsValue)
    ensures Kept(normalize, [a, b]) == Keep(normalize, a) + Keep(normalize, b)
  {
    assert [a, b][..1] == [a];
    assert [a][..0] == [];
  }

  /** A record holding only a title: skipped when the title is whitespace only, and otherwise
      kept with its title trimmed and every other field at its default. */
  lemma TitleOnlyRecord(t: string)
    ensures AllWhiteSpace(t) ==> Keep(NormalizeFood, Obj(map["title" := Str(t)])) == []
    ensures !AllWhiteSpace(t) ==>
      Keep(NormalizeFood, Obj(map["title" := Str(t)])) ==
        [Food(Trim(t), "", "", "", "", "", Int(0), Int(0), Int(0), [], [], ServerTimestamp)]
  {
    TitleOnlyNormalizes(t);
  }
}
