/** `process_single_doc` and `process_new_docs`: each document selected as `NEW` is read,
    its actions and then its summary computed, and its two result rows and its `PROCESSED`
    status written on a fresh connection that commits once, after the e-mail alert. The
    thread pool is modelled as a sequential loop over the selected documents. */
module Worker {

  import opened Wrappers
  import opened Json
  import opened Completion
  import opened Dispatch
  import opened Actions
  import opened Summary
  import opened Store

  /** What a run depends on outside the model: the stored files, the document parsers, the
      JSON codec, the completion service, the settings, the clock, whether the database
      accepts the run's own connection (`dbUp`), and whether it accepts the connection, the
      statements and the commit of the document with a given id (`dbUpFor`). */
  datatype Env = Env(
    files: map<string, Bytes>, parsers: Parsers, codec: Codec, svc: Service, cfg: Config,
    now: Moment, dbUp: bool, dbUpFor: nat -> bool)

  /** A selected row: `id, regulator, title, url, raw_file_path`. */
  datatype Doc = Doc(id: nat, regulator: string, title: string, url: string, path: string)

  /** `read_file(path)` then `extract_text(bytes, path)`; Err when either raises. */
  function DocText(env: Env, doc: Doc): Result<string> {
    if doc.path in env.files then ExtractText(env.parsers, env.files[doc.path], doc.path)
    else Err("FileNotFoundError")
  }

  /** `send_email_alert`, which takes `title, summary, actions_json`. Building the message
      and sending it are outside the model (sending is guarded by its own handler), so only
      a call with another number of arguments raises. */
  function SendEmailAlert(args: seq<string>): (r: Result<()>)
    ensures r.Err? <==> |args| != 3
  {
    if |args| == 3 then Ok(()) else Err("TypeError")
  }

  function DocActions(env: Env, doc: Doc, text: string): string {
    ActionsJson(env.codec, env.svc, env.cfg, text, doc.title)
  }

  /** The summary is computed from the text and the actions already extracted. */
  function DocSummary(env: Env, doc: Doc, text: string): string {
    SummaryOf(env.codec, env.svc, env.cfg, text, doc.title, DocActions(env, doc, text))
  }

  /** The writes of one processed document, in the order they are executed. */
  function DocWrites(env: Env, doc: Doc, text: string): seq<Write> {
    ResultWrites(doc.id, Note(doc.id, DocSummary(env, doc, text), env.now),
                 Note(doc.id, DocActions(env, doc, text), env.now))
  }

  /** Processing reaches the commit: the file is read and parsed, and the database answers. */
  predicate Completes(env: Env, doc: Doc) {
    DocText(env, doc).Ok? && env.dbUpFor(doc.id)
  }

  /** The committed state after processing `doc` (with the alert called correctly). */
  function AfterDoc(t: Tables, env: Env, doc: Doc): Tables {
    if Completes(env, doc) then ApplyAll(t, DocWrites(env, doc, DocText(env, doc).value)) else t
  }

  /** `save_summary_and_actions`: the summary row, then the actions row, on the open
      transaction. */
  method SaveSummaryAndActions(conn: Connection, summary: Note, actions: Note)
    modifies conn
    ensures conn.pending == old(conn.pending) + [InsertSummary(summary), InsertActions(actions)]
  {
    conn.Execute(InsertSummary(summary));
    conn.Execute(InsertActions(actions));
  }

  /** The actions are extracted first, and the summary is then computed with them. */
  method AnalyseDoc(env: Env, doc: Doc, text: string) returns (actions: string, summary: string)
    ensures actions == DocActions(env, doc, text)
    ensures summary == DocSummary(env, doc, text)
  {
    var actionPrompts, summaryPrompts;
    actions, actionPrompts := ExtractActions(env.codec, env.svc, env.cfg, text, doc.title);
    summary, summaryPrompts := SummarizeDoc(env.codec, env.svc, env.cfg, text, doc.title, actions);
  }

  /** `process_single_doc` as written: the alert is passed five arguments, so it raises
      before the `UPDATE` and the commit, and the handler drops the connection. */
  method ProcessSingleDocAsWritten(db: Database, env: Env, doc: Doc) returns (done: bool)
    modifies db
    ensures !done
    ensures db.tables == old(db.tables)
  {
    var text := DocText(env, doc);
    if text.Err? {
      return false;
    }
    var actions, summary := AnalyseDoc(env, doc, text.value);
    if !env.dbUpFor(doc.id) {
      return false;
    }
    var conn := new Connection(db);
    SaveSummaryAndActions(conn, Note(doc.id, summary, env.now), Note(doc.id, actions, env.now));
    var alert := SendEmailAlert([doc.regulator, doc.title, doc.url, summary, actions]);
    assert alert.Err?;
    done := false;
  }

  /** The database half of `process_single_doc` once the analysis is done: the two result
      rows, the alert, the status update, and one commit. */
  method StoreResults(db: Database, doc: Doc, summary: string, actions: string, now: Moment)
    modifies db
    ensures db.tables == ApplyAll(old(db.tables), ResultWrites(doc.id, Note(doc.id, summary, now), Note(doc.id, actions, now)))
  {
    var summaryRow := Note(doc.id, summary, now);
    var actionsRow := Note(doc.id, actions, now);
    var conn := new Connection(db);
    SaveSummaryAndActions(conn, summaryRow, actionsRow);
    var alert := SendEmailAlert([doc.title, summary, actions]);
    conn.Execute(MarkProcessed(doc.id));
    assert conn.pending == ResultWrites(doc.id, summaryRow, actionsRow);
    conn.Commit();
  }

  /** `process_single_doc` with the alert called as declared: the document's rows and its
      new status are committed together, or, when anything raises first, nothing is. */
  method ProcessSingleDoc(db: Database, env: Env, doc: Doc) returns (done: bool)
    modifies db
    ensures done <==> Completes(env, doc)
    ensures db.tables == AfterDoc(old(db.tables), env, doc)
  {
    var text := DocText(env, doc);
    if text.Err? {
      return false;
    }
    var actions, summary := AnalyseDoc(env, doc, text.value);
    if !env.dbUpFor(doc.id) {
      return false;
    }
    StoreResults(db, doc, summary, actions, env.now);
    AfterCompletedDoc(old(db.tables), env, doc, text.value, summary, actions);
    done := true;
  }

  lemma AfterCompletedDoc(t: Tables, env: Env, doc: Doc, text: string, summary: string, actions: string)
    requires DocText(env, doc) == Ok(text) && env.dbUpFor(doc.id)
    requires actions == DocActions(env, doc, text) && summary == DocSummary(env, doc, text)
    ensures AfterDoc(t, env, doc) == ApplyAll(t, ResultWrites(doc.id, Note(doc.id, summary, env.now), Note(doc.id, actions, env.now)))
  {
  }

  /** The rows `SELECT ... WHERE status = 'NEW'` returns. The query has no `ORDER BY`, so
      the order is not fixed: the model takes them in id order. */
  function Selected(t: Tables): (docs: seq<Doc>)
    ensures |docs| == |NewIds(t)|
    ensures forall k | 0 <= k < |docs| :: docs[k].id == NewIds(t)[k]
  {
    var ids := NewIds(t);
    seq(|ids|, k requires 0 <= k < |ids| =>
      var u := t.updates[ids[k]];
      Doc(ids[k], u.regulator, u.title, u.url, u.rawFilePath))
  }

  /** The committed state after processing `docs` one after the other. */
  function AfterDocs(t: Tables, env: Env, docs: seq<Doc>): Tables
    decreases |docs|
  {
    if docs == [] then t else AfterDoc(AfterDocs(t, env, docs[..|docs| - 1]), env, docs[|docs| - 1])
  }

  lemma AfterDocsStep(t: Tables, env: Env, docs: seq<Doc>, k: nat)
    requires k < |docs|
    ensures AfterDocs(t, env, docs[..k + 1]) == AfterDoc(AfterDocs(t, env, docs[..k]), env, docs[k])
  {
    assert docs[..k + 1][..k] == docs[..k];
  }

  /** `process_new_docs` with the alert called as declared: every document selected as
      `NEW` is processed once, in turn. When the run's own connection fails, it raises
      before anything is selected. */
  method ProcessNewDocs(db: Database, env: Env) returns (attempted: seq<nat>, raised: bool)
    modifies db
    ensures raised <==> !env.dbUp
    ensures raised ==> attempted == [] && db.tables == old(db.tables)
    ensures !raised ==> attempted == NewIds(old(db.tables))
    ensures !raised ==> db.tables == AfterDocs(old(db.tables), env, Selected(old(db.tables)))
  {
    attempted := [];
    if !env.dbUp {
      return [], true;
    }
    raised := false;
    var docs := Selected(db.tables);
    ghost var start := db.tables;
    var k := 0;
    while k < |docs|
      invariant 0 <= k <= |docs|
      invariant attempted == NewIds(start)[..k]
      invariant db.tables == AfterDocs(start, env, docs[..k])
    {
      AfterDocsStep(start, env, docs, k);
      var _ := ProcessSingleDoc(db, env, docs[k]);
      attempted := attempted + [docs[k].id];
      k := k + 1;
    }
    assert docs[..k] == docs;
  }

  /** `process_new_docs` as written: every document selected as `NEW` is attempted, and
      each attempt raises at the alert, so no run changes any table. */
  method ProcessNewDocsAsWritten(db: Database, env: Env) returns (attempted: seq<nat>, raised: bool)
    modifies db
    ensures raised <==> !env.dbUp
    ensures attempted == if raised then [] else NewIds(old(db.tables))
    ensures db.tables == old(db.tables)
  {
    attempted := [];
    if !env.dbUp {
      return [], true;
    }
    raised := false;
    var docs := Selected(db.tables);
    ghost var start := db.tables;
    var k := 0;
    while k < |docs|
      invariant 0 <= k <= |docs|
      invariant attempted == NewIds(start)[..k]
      invariant db.tables == start
    {
      var _ := ProcessSingleDocAsWritten(db, env, docs[k]);
      attempted := attempted + [docs[k].id];
      k := k + 1;
    }
    assert NewIds(start)[..k] == NewIds(start);
  }

  /** Processing one document changes at most its own row, to `PROCESSED`. */
  lemma AfterDocRows(t: Tables, env: Env, doc: Doc)
    ensures |AfterDoc(t, env, doc).updates| == |t.updates|
    ensures forall i | 0 <= i < |t.updates| ::
              AfterDoc(t, env, doc).updates[i] ==
                if i == doc.id && Completes(env, doc) then t.updates[i].(status := Processed) else t.updates[i]
  {
    if Completes(env, doc) {
      var text := DocText(env, doc).value;
      ResultWritesTouchOwnRow(t, doc.id, Note(doc.id, DocSummary(env, doc, text), env.now),
                              Note(doc.id, DocActions(env, doc, text), env.now));
    }
  }

  /** Processing completes, as a predicate on documents. */
  function Done(env: Env): Doc -> bool {
    doc => Completes(env, doc)
  }

  /** Some document of `docs` with id `i` satisfies `done`. */
  predicate AnyWithId(done: Doc -> bool, docs: seq<Doc>, i: nat) {
    exists k | 0 <= k < |docs| :: docs[k].id == i && done(docs[k])
  }

  /** After a run, a row is `PROCESSED` exactly when the processing of a document with its
      id completed; the outcome of one document does not depend on the others, and rows
      that were not selected keep their status. */
  lemma {:induction false} RunOutcome(t: Tables, env: Env, docs: seq<Doc>)
    ensures |AfterDocs(t, env, docs).updates| == |t.updates|
    ensures forall i | 0 <= i < |t.updates| ::
              AfterDocs(t, env, docs).updates[i] ==
                if AnyWithId(Done(env), docs, i) then t.updates[i].(status := Processed) else t.updates[i]
    decreases |docs|
  {
    if docs != [] {
      var init, last := docs[..|docs| - 1], docs[|docs| - 1];
      RunOutcome(t, env, init);
      var mid := AfterDocs(t, env, init);
      AfterDocRows(mid, env, last);
      var r := AfterDocs(t, env, docs);
      assert r == AfterDoc(mid, env, last);
      assert Done(env)(last) == Completes(env, last);
      forall i | 0 <= i < |t.updates|
        ensures r.updates[i] == if AnyWithId(Done(env), docs, i) then t.updates[i].(status := Processed) else t.updates[i]
      {
        AnyWithIdSnoc(Done(env), docs, i);
      }
    }
  }

  lemma AnyWithIdSnoc(done: Doc -> bool, docs: seq<Doc>, i: nat)
    requires docs != []
    ensures AnyWithId(done, docs, i) <==>
              AnyWithId(done, docs[..|docs| - 1], i) || (docs[|docs| - 1].id == i && done(docs[|docs| - 1]))
  {
    var init := docs[..|docs| - 1];
    if AnyWithId(done, docs, i) {
      var k :| 0 <= k < |docs| && docs[k].id == i && done(docs[k]);
      if k < |docs| - 1 {
        assert init[k] == docs[k];
      }
    }
    if AnyWithId(done, init, i) {
      var k :| 0 <= k < |init| && init[k].id == i && done(init[k]);
      assert docs[k] == init[k];
    }
  }

  /** The alert as the processor calls it, with five arguments, raises; called with the
      three it declares, it does not. */
  lemma AsWrittenAlertRaises(doc: Doc, summary: string, actions: string)
    ensures SendEmailAlert([doc.regulator, doc.title, doc.url, summary, actions]).Err?
    ensures SendEmailAlert([doc.title, summary, actions]).Ok?
  {
  }
}
