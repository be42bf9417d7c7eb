/** The two scrapers, `scrape_rbi_notifications` and `scrape_nhb_notifications`: the rules
    that turn a listing row into a title, an absolute URL and a stored file name, and the
    loop that stores each fetched file as a `NEW` row of `reg_updates` unless a row with the
    same content hash is already visible on the scraper's connection. Fetching pages and
    files, HTML selection, hashing and date parsing are parameters (`Web`). */
module Scraper {

  import opened Wrappers
  import opened Text
  import opened Store
  import Dispatch

  /** `ALLOWED_EXTENSIONS`. */
  const AllowedExtensions: seq<string> := [".pdf", ".htm", ".html", ".xls", ".xlsx", ".csv", ".docx"]

  const RbiHost: string := "https://rbi.org.in"
  const NhbHost: string := "https://www.nhb.org.in"

  /** The RBI notification page, whose links are accepted whatever their extension. */
  const RbiPage: string := "NotificationUser.aspx"

  /** `s.endswith(ALLOWED_EXTENSIONS)`. */
  predicate EndsWithAllowed(s: string) {
    exists k | 0 <= k < |AllowedExtensions| :: EndsWith(s, AllowedExtensions[k])
  }

  /** `str.isdigit()` for the ASCII digits: non-empty and digits only. */
  predicate IsNumber(w: string) {
    w != [] && forall i | 0 <= i < |w| :: '0' <= w[i] <= '9'
  }

  // ---------------------------------------------------------------- titles

  /** The RBI title rule: a title ending in "kb" whose last two words are a number and
      "kb" (in any case) loses those two words, which the listing uses for the file size. */
  function CleanTitle(raw: string): string {
    if EndsWith(Lower(raw), "kb") then
      var parts := Split(raw);
      if |parts| >= 2 && IsNumber(parts[|parts| - 2]) && Lower(parts[|parts| - 1]) == "kb"
      then Join(parts[..|parts| - 2], " ")
      else raw
    else raw
  }

  /** A title of words followed by a size label "<digits> kb" comes back as the words. */
  lemma KbLabelDropped(ws: seq<string>, size: string, unit: string)
    requires forall i | 0 <= i < |ws| :: IsWord(ws[i])
    requires IsNumber(size) && Lower(unit) == "kb"
    ensures CleanTitle(Join(ws + [size, unit], " ")) == Join(ws, " ")
  {
    var all := ws + [size, unit];
    LabelWords(ws, size, unit);
    SplitJoin(all);
    LabelEnding(ws, size, unit);
    assert all[..|all| - 2] == ws;
  }

  /** Any other title is left as it is: when the rule changes a title, its last two words
      were a number and "kb", and the result is its other words, in order. */
  lemma OnlyLabelDropped(raw: string)
    ensures CleanTitle(raw) != raw ==>
              var ws := Split(raw);
              && |ws| >= 2 && IsNumber(ws[|ws| - 2]) && Lower(ws[|ws| - 1]) == "kb"
              && Split(CleanTitle(raw)) == ws[..|ws| - 2]
  {
    var ws := Split(raw);
    if CleanTitle(raw) != raw {
      var pre := ws[..|ws| - 2];
      forall i | 0 <= i < |pre| ensures IsWord(pre[i]) {
        assert pre[i] == ws[i];
      }
      SplitJoin(pre);
    }
  }

  lemma LabelWords(ws: seq<string>, size: string, unit: string)
    requires forall i | 0 <= i < |ws| :: IsWord(ws[i])
    requires IsNumber(size) && Lower(unit) == "kb"
    ensures forall i | 0 <= i < |ws + [size, unit]| :: IsWord((ws + [size, unit])[i])
  {
    assert Lower(unit)[0] == 'k' && Lower(unit)[1] == 'b';
    assert !IsSpace(unit[0]) && !IsSpace(unit[1]);
    assert IsWord(size) && IsWord(unit);
  }

  lemma LabelEnding(ws: seq<string>, size: string, unit: string)
    requires Lower(unit) == "kb"
    ensures EndsWith(Lower(Join(ws + [size, unit], " ")), "kb")
  {
    JoinSnoc(ws + [size], unit, " ");
    assert ws + [size] + [unit] == ws + [size, unit];
    LowerSuffix(Join(ws + [size], " ") + " ", unit);
  }

  /** `sep.join(xs + [x])` puts `sep` and `x` after the join of `xs`. */
  lemma {:induction false} JoinSnoc(xs: seq<string>, x: string, sep: string)
    requires xs != []
    ensures Join(xs + [x], sep) == Join(xs, sep) + sep + x
    decreases |xs|
  {
    if |xs| > 1 {
      assert (xs + [x])[1..] == xs[1..] + [x];
      JoinSnoc(xs[1..], x, sep);
    } else {
      assert (xs + [x])[1..] == [x];
    }
  }

  lemma LowerSuffix(a: string, b: string)
    ensures EndsWith(Lower(a + b), Lower(b))
  {
    assert Lower(a + b)[|a|..] == Lower(b);
  }

  /** `os.path.basename`: the part after the last `/`. */
  function Basename(p: string): (r: string)
    ensures EndsWith(p, r) && '/' !in r
    ensures |r| < |p| ==> p[|p| - |r| - 1] == '/'
  {
    match LastIndexOf(p, '/')
    case None => p
    case Some(i) => p[i + 1..]
  }

  /** The RBI title as written: a blank cleaned title falls back to the link's file name or
      "Untitled", and for an anchor without `href` that fallback is `basename(None)`, which
      raises `TypeError`. */
  function RbiTitleAsWritten(raw: string, href: Option<string>): Result<string> {
    var title := CleanTitle(raw);
    if !AllSpace(title) then Ok(title)
    else if href.None? then Err("TypeError")
    else Ok(if Basename(href.value) == [] then "Untitled" else Basename(href.value))
  }

  /** The RBI title as intended: an anchor without `href` has no file name either. */
  function RbiTitle(raw: string, href: Option<string>): (title: string)
    ensures title != []
    ensures !AllSpace(CleanTitle(raw)) ==> title == CleanTitle(raw)
  {
    var title := CleanTitle(raw);
    if !AllSpace(title) then title
    else
      var name := if href.Some? then Basename(href.value) else [];
      if name == [] then "Untitled" else name
  }

  /** The written title raises exactly for a blank title on an anchor without `href`, and
      otherwise agrees with the intended one. */
  lemma RbiTitleFix(raw: string, href: Option<string>)
    ensures RbiTitleAsWritten(raw, href).Err? <==> href.None? && AllSpace(CleanTitle(raw))
    ensures RbiTitleAsWritten(raw, href).Ok? ==> RbiTitleAsWritten(raw, href).value == RbiTitle(raw, href)
  {
  }

  /** `text.split(sep)[0]`: the text before the first occurrence of `sep`. */
  function Before(s: string, sep: string): (r: string)
    requires sep != []
    ensures |r| <= |s| && r == s[..|r|]
    ensures |r| < |s| ==> StartsWith(s[|r|..], sep)
    ensures forall i | 0 <= i < |r| :: !StartsWith(s[i..], sep)
    decreases |s|
  {
    if s == [] || StartsWith(s, sep) then []
    else
      var rest := Before(s[1..], sep);
      assert forall i | 1 <= i <= |rest| :: s[i..] == s[1..][i - 1..];
      [s[0]] + rest
  }

  /** The NHB title: the block's text before its first "Download", stripped, or else the
      file name of the URL. */
  function NhbTitle(text: string, url: string): string {
    var t := Strip(Before(text, "Download"));
    if t == [] then Basename(url) else t
  }

  /** When `sep` does not start anywhere inside `x`, the text before the first `sep` of
      `x + y` is `x` exactly when `y` starts with `sep`. */
  lemma BeforeSkips(x: string, y: string, sep: string)
    requires sep != [] && StartsWith(y, sep)
    requires forall i | 0 <= i < |x| :: !StartsWith((x + y)[i..], sep)
    ensures Before(x + y, sep) == x
  {
    var r := Before(x + y, sep);
    assert (x + y)[|x|..] == y;
    assert (x + y)[..|x|] == x;
  }

  /** No "Download" occurs in `s`. */
  predicate NoDownload(s: string) {
    !Contains(s, "Download")
  }

  /** A block reading "<title> Download ..." is titled by the title, when the title is
      stripped and holds no "Download" of its own. */
  lemma NhbTitleOfBlock(x: string, rest: string, url: string)
    requires x != [] && !IsSpace(x[0]) && !IsSpace(x[|x| - 1]) && NoDownload(x)
    ensures NhbTitle(x + " Download" + rest, url) == x
  {
    var y := "Download" + rest;
    Regroup(x, rest);
    MarkerAfterSpace(x, y);
    StripPadded([], x, " ");
    assert [] + x + " " == x + " ";
  }

  lemma Regroup(x: string, rest: string)
    ensures x + " Download" + rest == (x + " ") + ("Download" + rest)
  {
  }

  lemma MarkerAfterSpace(x: string, y: string)
    requires NoDownload(x) && StartsWith(y, "Download")
    ensures Before((x + " ") + y, "Download") == x + " "
  {
    forall i | 0 <= i < |x + " "| ensures !StartsWith(((x + " ") + y)[i..], "Download") {
      SpaceBreaksMarker(x, y, "Download", i);
    }
    BeforeSkips(x + " ", y, "Download");
  }

  /** No marker without spaces starts inside `x + " "` when none occurs in `x`: one that
      ran past the end of `x` would hold the space. */
  lemma SpaceBreaksMarker(x: string, y: string, p: string, i: nat)
    requires ' ' !in p && !Contains(x, p) && i <= |x|
    ensures !StartsWith(((x + " ") + y)[i..], p)
  {
    var s := (x + " ") + y;
    if i + |p| <= |x| {
      assert s[i..i + |p|] == x[i..i + |p|];
      if x[i..i + |p|] == p {
        ContainsAt(x, p, i);
      }
    } else if |p| <= |s| - i {
      assert s[i..][..|p|][|x| - i] == s[|x|] == ' ';
      assert p[|x| - i] in p;
    }
  }

  /** A URL the NHB filter keeps has a non-empty file name, so its title is never empty. */
  lemma NhbTitleNotEmpty(text: string, url: string)
    requires EndsWithAllowed(Lower(url))
    ensures NhbTitle(text, url) != []
  {
    var k :| 0 <= k < |AllowedExtensions| && EndsWith(Lower(url), AllowedExtensions[k]);
    LastNotSlash(url, AllowedExtensions[k]);
  }

  lemma LastNotSlash(url: string, e: string)
    requires EndsWith(Lower(url), e) && e != [] && e[|e| - 1] != '/'
    ensures Basename(url) != []
  {
    assert LowerChar(url[|url| - 1]) == e[|e| - 1];
  }

  // ---------------------------------------------------------------- links and names

  /** The RBI link filter: a non-empty `href` that ends, in lower case, with an allowed
      extension, or that names the notification page. */
  predicate Accepted(href: string) {
    href != [] && (EndsWithAllowed(Lower(href)) || Contains(href, RbiPage))
  }

  /** The RBI absolute URL: a site-relative `href` gets the host in front. */
  function RbiUrl(href: string): (url: string)
    ensures EndsWith(url, href)
    ensures StartsWith(href, "/") ==> StartsWith(url, RbiHost + "/")
    ensures !StartsWith(href, "/") ==> url == href
  {
    if StartsWith(href, "/") then RbiHost + href else href
  }

  /** The NHB absolute URL: host-relative, already absolute, or page-relative. */
  function NhbUrl(href: string): (url: string)
    ensures StartsWith(url, "http")
    ensures EndsWith(url, href)
    ensures StartsWith(href, "http") ==> url == href
  {
    if StartsWith(href, "/") then assert href[0] != 'h'; NhbHost + href
    else if StartsWith(href, "http") then href
    else NhbHost + "/" + href
  }

  /** Building a URL twice gives the URL built once. */
  lemma UrlsIdempotent(href: string)
    ensures RbiUrl(RbiUrl(href)) == RbiUrl(href)
    ensures NhbUrl(NhbUrl(href)) == NhbUrl(href)
  {
    if StartsWith(href, "/") {
      assert RbiUrl(href)[0] == 'h';
    }
  }

  /** `os.path.splitext(p)[1]`: from the last `.` of the last path component, provided that
      component holds something other than dots before it; otherwise empty. */
  function Ext(p: string): (e: string)
    ensures e == [] || (e[0] == '.' && EndsWith(p, e) && '/' !in e && '.' !in e[1..])
  {
    var base := match LastIndexOf(p, '/') case None => 0 case Some(s) => s + 1;
    match LastIndexOf(p, '.')
    case None => []
    case Some(d) =>
      if base <= d && exists i | base <= i < d :: p[i] != '.' then p[d..] else []
  }

  /** The stored file name: the content hash and the lowered extension, `.pdf` by default. */
  function StoredName(hash: string, path: string): (name: string)
    ensures StartsWith(name, hash)
  {
    hash + (if Ext(path) == [] then ".pdf" else Lower(Ext(path)))
  }

  /** A path ending in a one-dot extension after a name keeps that extension, lowered. */
  lemma StoredNameKeepsExtension(hash: string, stem: string, ext: string)
    requires stem != [] && stem[|stem| - 1] != '/' && stem[|stem| - 1] != '.'
    requires ext != [] && ext[0] == '.' && '.' !in ext[1..] && '/' !in ext
    ensures StoredName(hash, stem + ext) == hash + Lower(ext)
  {
    var p := stem + ext;
    assert p[|stem|] == '.';
    forall j | |stem| < j < |p| ensures p[j] != '.' {
      assert p[j] == ext[1..][j - |stem| - 1];
    }
    forall j | |stem| - 1 <= j < |p| ensures p[j] != '/' {
      if j >= |stem| {
        assert p[j] == ext[j - |stem|];
      }
    }
    assert p[|stem| - 1] != '.';
    match LastIndexOf(p, '.')
    case Some(d) =>
      assert d == |stem|;
      assert p[d..] == ext;
  }

  /** A path without a dot is stored as a PDF. */
  lemma NoDotStoredAsPdf(hash: string, path: string)
    requires '.' !in path
    ensures StoredName(hash, path) == hash + ".pdf"
  {
  }

  /** `os.path.join(directory, name)`. */
  function LocalPath(directory: string, name: string): (path: string)
    ensures EndsWith(path, name)
  {
    if StartsWith(name, "/") then name
    else if directory == [] || EndsWith(directory, "/") then directory + name
    else directory + "/" + name
  }

  /** The stored file keeps its name: the base name of its path is the file name. */
  lemma LocalPathBasename(directory: string, name: string)
    requires name != [] && '/' !in name
    ensures Basename(LocalPath(directory, name)) == name
  {
    var p := LocalPath(directory, name);
    var n := |p| - |name|;
    assert p[n..] == name;
    assert n == 0 || p[n - 1] == '/';
    forall j | n <= j < |p| ensures p[j] != '/' {
      assert p[j] == name[j - n];
    }
  }

  // ---------------------------------------------------------------- rows and the store

  /** What a scrape depends on outside the model: `requests.get(url).content` (None when it
      raises), `compute_hash`, `LOCAL_STORAGE`, the RBI date format `"%b %d, %Y"`,
      `extract_date_from_text_or_url`, today's date and the insertion time. */
  datatype Web = Web(
    fetch: string -> Option<Dispatch.Bytes>, hashOf: Dispatch.Bytes -> string, storage: string,
    rbiDate: string -> Option<Date>, nhbDate: (string, string) -> Date, today: Date, now: Moment)

  /** A downloaded file and what its `reg_updates` row is made of; `extFrom` is the string
      whose extension names the stored file (the `href` for RBI, the URL for NHB). */
  datatype Fetched = Fetched(
    regulator: string, title: string, url: string, pubDate: Moment, content: Dispatch.Bytes,
    extFrom: string)

  /** The row `save_metadata_for_regulator` inserts: status `NEW`, and a `datetime`
      publication date cut down to its date. */
  function RowFor(regulator: string, title: string, url: string, pubDate: Moment, hash: string,
                  localPath: string, now: Moment): (row: Update)
    ensures row.status == New && row.pubDate == OnDay(pubDate.date)
    ensures row.hash == hash && row.url == url && row.title == title && row.regulator == regulator
  {
    Update(regulator, title, url, OnDay(pubDate.date), hash, localPath, New, now)
  }

  method SaveMetadataForRegulator(conn: Connection, regulator: string, title: string, url: string,
                                  pubDate: Moment, hash: string, localPath: string, now: Moment)
    modifies conn
    ensures conn.pending == old(conn.pending) + [InsertUpdate(RowFor(regulator, title, url, pubDate, hash, localPath, now))]
    ensures conn.View() == Apply(old(conn.View()), InsertUpdate(RowFor(regulator, title, url, pubDate, hash, localPath, now)))
  {
    conn.Execute(InsertUpdate(RowFor(regulator, title, url, pubDate, hash, localPath, now)));
  }

  /** The row a fetched file gets, stored under its hash-derived name. */
  function RowOf(web: Web, f: Fetched): Update {
    var hash := web.hashOf(f.content);
    RowFor(f.regulator, f.title, f.url, f.pubDate, hash,
           LocalPath(web.storage, StoredName(hash, f.extFrom)), web.now)
  }

  /** One fetched file against what the connection sees: unless forced, a file whose hash is
      already stored is skipped. */
  function Keep(t: Tables, web: Web, f: Fetched, force: bool): Tables {
    if !force && HasHash(t, web.hashOf(f.content)) then t
    else Apply(t, InsertUpdate(RowOf(web, f)))
  }

  /** The fetched files of one run, in order, each seeing the rows inserted before it. */
  function KeepAll(t: Tables, web: Web, fs: seq<Fetched>, force: bool): Tables
    decreases |fs|
  {
    if fs == [] then t else Keep(KeepAll(t, web, fs[..|fs| - 1], force), web, fs[|fs| - 1], force)
  }

  /** The shared tail of both loop bodies: hash, dedup check on the run's own connection,
      stored file name, and the insert. */
  method SaveIfNew(conn: Connection, web: Web, f: Fetched, force: bool) returns (saved: bool)
    modifies conn
    ensures saved <==> force || !HasHash(old(conn.View()), web.hashOf(f.content))
    ensures conn.View() == Keep(old(conn.View()), web, f, force)
  {
    var hash := web.hashOf(f.content);
    if !force && conn.Exists(hash) {
      return false;
    }
    var filename := StoredName(hash, f.extFrom);
    var localPath := LocalPath(web.storage, filename);
    SaveMetadataForRegulator(conn, f.regulator, f.title, f.url, f.pubDate, hash, localPath, web.now);
    saved := true;
  }

  /** One fetched file appends at most one row, `NEW` and dated by day. */
  lemma KeepAppends(t: Tables, web: Web, f: Fetched, force: bool)
    ensures |t.updates| <= |Keep(t, web, f, force).updates| <= |t.updates| + 1
    ensures Keep(t, web, f, force).updates[..|t.updates|] == t.updates
    ensures Keep(t, web, f, force).summaries == t.summaries
    ensures Keep(t, web, f, force).actions == t.actions
    ensures |Keep(t, web, f, force).updates| > |t.updates| ==>
              Keep(t, web, f, force).updates[|t.updates|] == RowOf(web, f)
  {
  }

  /** A run only appends rows, all of them `NEW` and dated by day, and leaves the other
      tables alone. */
  lemma {:induction false} KeepAllAppends(t: Tables, web: Web, fs: seq<Fetched>, force: bool)
    ensures |t.updates| <= |KeepAll(t, web, fs, force).updates|
    ensures KeepAll(t, web, fs, force).updates[..|t.updates|] == t.updates
    ensures KeepAll(t, web, fs, force).summaries == t.summaries
    ensures KeepAll(t, web, fs, force).actions == t.actions
    ensures forall i | |t.updates| <= i < |KeepAll(t, web, fs, force).updates| ::
              KeepAll(t, web, fs, force).updates[i].status == New
              && KeepAll(t, web, fs, force).updates[i].pubDate.OnDay?
    decreases |fs|
  {
    if fs != [] {
      var f := fs[|fs| - 1];
      KeepAllAppends(t, web, fs[..|fs| - 1], force);
      var mid := KeepAll(t, web, fs[..|fs| - 1], force);
      KeepAppends(mid, web, f, force);
      var r := Keep(mid, web, f, force);
      assert r == KeepAll(t, web, fs, force);
      forall i | |t.updates| <= i < |r.updates| ensures r.updates[i].status == New && r.updates[i].pubDate.OnDay? {
        if i < |mid.updates| {
          assert r.updates[i] == r.updates[..|mid.updates|][i];
        }
      }
      assert r.updates[..|t.updates|] == r.updates[..|mid.updates|][..|t.updates|];
    }
  }

  /** Without `force`, a run inserts no hash already stored and none twice: a table whose
      hashes are distinct stays so. */
  lemma {:induction false} KeepAllDistinct(t: Tables, web: Web, fs: seq<Fetched>)
    requires DistinctHashes(t)
    ensures DistinctHashes(KeepAll(t, web, fs, false))
    decreases |fs|
  {
    if fs != [] {
      KeepAllDistinct(t, web, fs[..|fs| - 1]);
      var mid := KeepAll(t, web, fs[..|fs| - 1], false);
      var f := fs[|fs| - 1];
      var r := Keep(mid, web, f, false);
      if !HasHash(mid, web.hashOf(f.content)) {
        forall i, j | 0 <= i < j < |r.updates| ensures r.updates[i].hash != r.updates[j].hash {
          if j == |mid.updates| {
            assert r.updates[i] == mid.updates[i];
          } else {
            assert r.updates[i] == mid.updates[i] && r.updates[j] == mid.updates[j];
          }
        }
      }
    }
  }

  /** Without `force`, every row a run appends has a hash that no earlier row has: none
      already in the table and none appended before it in the same run. */
  lemma {:induction false} KeepAllFresh(t: Tables, web: Web, fs: seq<Fetched>)
    ensures forall i, j | 0 <= i < j < |KeepAll(t, web, fs, false).updates| && |t.updates| <= j ::
              KeepAll(t, web, fs, false).updates[i].hash != KeepAll(t, web, fs, false).updates[j].hash
    decreases |fs|
  {
    if fs != [] {
      var init := fs[..|fs| - 1];
      KeepAllFresh(t, web, init);
      KeepAllAppends(t, web, init, false);
      var mid := KeepAll(t, web, init, false);
      var f := fs[|fs| - 1];
      var r := Keep(mid, web, f, false);
      if !HasHash(mid, web.hashOf(f.content)) {
        forall i, j | 0 <= i < j < |r.updates| && |t.updates| <= j
          ensures r.updates[i].hash != r.updates[j].hash
        {
          if j == |mid.updates| {
            assert r.updates[i] == mid.updates[i] && r.updates[j] == RowOf(web, f);
          } else {
            assert r.updates[i] == mid.updates[i] && r.updates[j] == mid.updates[j];
          }
        }
      }
    }
  }

  /** After a run, every fetched file's hash is stored, inserted by this run or before. */
  lemma {:induction false} KeepAllCovers(t: Tables, web: Web, fs: seq<Fetched>, force: bool)
    ensures forall k | 0 <= k < |fs| :: HasHash(KeepAll(t, web, fs, force), web.hashOf(fs[k].content))
    decreases |fs|
  {
    if fs != [] {
      var init := fs[..|fs| - 1];
      KeepAllCovers(t, web, init, force);
      var mid := KeepAll(t, web, init, force);
      var f := fs[|fs| - 1];
      var r := Keep(mid, web, f, force);
      assert r.updates[..|mid.updates|] == mid.updates;
      forall k | 0 <= k < |fs| ensures HasHash(r, web.hashOf(fs[k].content)) {
        if k < |fs| - 1 {
          assert fs[k] == init[k];
          var i :| 0 <= i < |mid.updates| && mid.updates[i].hash == web.hashOf(init[k].content);
          assert r.updates[i] == mid.updates[i];
        } else if r != mid {
          assert r.updates[|mid.updates|].hash == web.hashOf(f.content);
        }
      }
    }
  }

  /** Without `force`, files whose hashes are all stored already change nothing. */
  lemma {:induction false} KeepAllKnown(t: Tables, web: Web, fs: seq<Fetched>)
    requires forall k | 0 <= k < |fs| :: HasHash(t, web.hashOf(fs[k].content))
    ensures KeepAll(t, web, fs, false) == t
    decreases |fs|
  {
    if fs != [] {
      KeepAllKnown(t, web, fs[..|fs| - 1]);
    }
  }

  /** Scraping the same files again without `force` stores nothing new. */
  lemma RescrapeAddsNothing(t: Tables, web: Web, fs: seq<Fetched>)
    ensures KeepAll(KeepAll(t, web, fs, false), web, fs, false) == KeepAll(t, web, fs, false)
  {
    KeepAllCovers(t, web, fs, false);
    KeepAllKnown(KeepAll(t, web, fs, false), web, fs);
  }

  /** With `force`, every fetched file is stored. */
  lemma {:induction false} ForcedKeepsAll(t: Tables, web: Web, fs: seq<Fetched>)
    ensures |KeepAll(t, web, fs, true).updates| == |t.updates| + |fs|
    decreases |fs|
  {
    if fs != [] {
      ForcedKeepsAll(t, web, fs[..|fs| - 1]);
    }
  }

  // ---------------------------------------------------------------- the RBI scraper

  /** The anchor of a row's second cell: none, or one whose `href` may be missing. */
  datatype Link = NoLink | Link(href: Option<string>)

  /** A row of the RBI listing: its number of cells, the first cell's text, the second
      cell's anchor and text. */
  datatype RbiRow = RbiRow(cells: nat, dateText: string, link: Link, text: string)

  /** How a row's title is made from its title text and its anchor's `href`; `Err` when
      making it raises. The listing's loop is the same for the rule as written and for the
      corrected one. */
  type TitleRule = (string, Option<string>) -> Result<string>

  const AsWrittenTitles: TitleRule := (raw, href) => RbiTitleAsWritten(raw, href)
  const FixedTitles: TitleRule := (raw, href) => Ok(RbiTitle(raw, href))

  /** The row reaches the title and making it raises. */
  predicate Raises(rule: TitleRule, row: RbiRow) {
    row.cells >= 2 && row.link.Link? && rule(row.text, row.link.href).Err?
  }

  /** As written, a row raises exactly when it has two cells and an anchor without `href`,
      and its cleaned title is blank; with the fix, no row raises. */
  lemma RaisingRows(row: RbiRow)
    ensures Raises(AsWrittenTitles, row) <==>
              row.cells >= 2 && row.link.Link? && row.link.href.None? && AllSpace(CleanTitle(row.text))
    ensures !Raises(FixedTitles, row)
  {
    if row.cells >= 2 && row.link.Link? {
      RbiTitleFix(row.text, row.link.href);
    }
  }

  /** The `href` of a row the loop goes on to download: the row has two cells and an
      anchor, whose `href` is present and accepted by the link filter. */
  function RbiHref(row: RbiRow): (href: Option<string>)
    ensures href.Some? <==> row.cells >= 2 && row.link.Link? && row.link.href.Some?
                            && Accepted(row.link.href.value)
    ensures href.Some? ==> row.link == Link(href)
  {
    if row.cells < 2 || row.link.NoLink? || row.link.href.None? || !Accepted(row.link.href.value)
    then None
    else row.link.href
  }

  /** The file an RBI row yields before the dedup check, or None when the row is skipped
      or its download raises. */
  function RbiCandidate(web: Web, rule: TitleRule, row: RbiRow): Option<Fetched> {
    match RbiHref(row)
    case None => None
    case Some(href) =>
      var url := RbiUrl(href);
      match (rule(row.text, Some(href)), web.fetch(url))
      case (Ok(title), Some(content)) =>
        Some(Fetched("RBI", title, url, OnDay(web.rbiDate(row.dateText).GetOr(web.today)), content, href))
      case _ => None
  }

  /** The table after one row's candidate, if it has one. */
  function KeepOpt(t: Tables, web: Web, c: Option<Fetched>, force: bool): Tables {
    if c.Some? then Keep(t, web, c.value, force) else t
  }

  function Present(c: Option<Fetched>): seq<Fetched> {
    if c.Some? then [c.value] else []
  }

  lemma KeepAllSnoc(t: Tables, web: Web, fs: seq<Fetched>, c: Option<Fetched>, force: bool)
    ensures KeepAll(t, web, fs + Present(c), force) == KeepOpt(KeepAll(t, web, fs, force), web, c, force)
  {
    if c.Some? {
      assert (fs + [c.value])[..|fs|] == fs;
    } else {
      assert fs + [] == fs;
    }
  }

  function RbiFetched(web: Web, rule: TitleRule, rows: seq<RbiRow>): seq<Fetched>
    decreases |rows|
  {
    if rows == [] then []
    else RbiFetched(web, rule, rows[..|rows| - 1]) + Present(RbiCandidate(web, rule, rows[|rows| - 1]))
  }

  lemma RbiFetchedStep(t: Tables, web: Web, rule: TitleRule, rows: seq<RbiRow>, k: nat, force: bool)
    requires k < |rows|
    ensures KeepAll(t, web, RbiFetched(web, rule, rows[..k + 1]), force)
            == KeepOpt(KeepAll(t, web, RbiFetched(web, rule, rows[..k]), force), web,
                       RbiCandidate(web, rule, rows[k]), force)
  {
    assert rows[..k + 1][..k] == rows[..k];
    KeepAllSnoc(t, web, RbiFetched(web, rule, rows[..k]), RbiCandidate(web, rule, rows[k]), force);
  }

  /** One pass of the RBI loop: `raised` when the row's title raises. */
  method RbiRowStep(conn: Connection, web: Web, rule: TitleRule, row: RbiRow, force: bool) returns (raised: bool)
    modifies conn
    ensures raised <==> Raises(rule, row)
    ensures !raised ==> conn.View() == KeepOpt(old(conn.View()), web, RbiCandidate(web, rule, row), force)
  {
    if row.cells < 2 || row.link.NoLink? {
      assert RbiHref(row).None?;
      return false;
    }
    var href := row.link.href;
    var title := rule(row.text, href);
    if title.Err? {
      return true;
    }
    var pubDate := OnDay(web.rbiDate(row.dateText).GetOr(web.today));
    if href.None? || !Accepted(href.value) {
      assert RbiHref(row).None?;
      return false;
    }
    assert RbiHref(row) == href;
    var url := RbiUrl(href.value);
    var content := web.fetch(url);
    if content.None? {
      return false;
    }
    var _ := SaveIfNew(conn, web, Fetched("RBI", title.value, url, pubDate, content.value, href.value), force);
    raised := false;
  }

  /** The loop of `scrape_rbi_notifications` under a title rule: the files of the accepted
      links are stored in row order, deduplicated unless forced, and committed once; a row
      whose title raises ends the run before the commit, so that nothing is stored. */
  method ScrapeRbiWith(db: Database, web: Web, rule: TitleRule, rows: seq<RbiRow>, force: bool)
    returns (raised: bool)
    modifies db
    ensures raised <==> exists k | 0 <= k < |rows| :: Raises(rule, rows[k])
    ensures raised ==> db.tables == old(db.tables)
    ensures !raised ==> db.tables == KeepAll(old(db.tables), web, RbiFetched(web, rule, rows), force)
  {
    var conn := new Connection(db);
    ghost var start := db.tables;
    var k := 0;
    while k < |rows|
      invariant 0 <= k <= |rows|
      invariant conn.db == db && db.tables == start
      invariant forall j | 0 <= j < k :: !Raises(rule, rows[j])
      invariant conn.View() == KeepAll(start, web, RbiFetched(web, rule, rows[..k]), force)
    {
      RbiFetchedStep(start, web, rule, rows, k, force);
      var raisedHere := RbiRowStep(conn, web, rule, rows[k], force);
      if raisedHere {
        return true;
      }
      k := k + 1;
    }
    assert rows[..k] == rows;
    conn.Commit();
    raised := false;
  }

  /** `scrape_rbi_notifications` as written: one row with a blank title and an anchor
      without `href` makes the whole run store nothing. */
  method ScrapeRbiAsWritten(db: Database, web: Web, rows: seq<RbiRow>, force: bool) returns (raised: bool)
    modifies db
    ensures raised <==> exists k | 0 <= k < |rows| :: Raises(AsWrittenTitles, rows[k])
    ensures raised ==> db.tables == old(db.tables)
    ensures !raised ==> db.tables == KeepAll(old(db.tables), web, RbiFetched(web, AsWrittenTitles, rows), force)
  {
    raised := ScrapeRbiWith(db, web, AsWrittenTitles, rows, force);
  }

  /** `scrape_rbi_notifications` with the title fallback fixed: every run commits. */
  method ScrapeRbi(db: Database, web: Web, rows: seq<RbiRow>, force: bool)
    modifies db
    ensures db.tables == KeepAll(old(db.tables), web, RbiFetched(web, FixedTitles, rows), force)
  {
    var raised := ScrapeRbiWith(db, web, FixedTitles, rows, force);
    forall k | 0 <= k < |rows| ensures !Raises(FixedTitles, rows[k]) {
      RaisingRows(rows[k]);
    }
  }

  /** Where the written rule does not raise, both rules store the same files. */
  lemma {:induction false} FixKeepsOtherRuns(web: Web, rows: seq<RbiRow>)
    requires forall k | 0 <= k < |rows| :: !Raises(AsWrittenTitles, rows[k])
    ensures RbiFetched(web, AsWrittenTitles, rows) == RbiFetched(web, FixedTitles, rows)
    decreases |rows|
  {
    if rows != [] {
      var last := rows[|rows| - 1];
      FixKeepsOtherRuns(web, rows[..|rows| - 1]);
      SameCandidate(web, last);
    }
  }

  lemma SameCandidate(web: Web, row: RbiRow)
    requires !Raises(AsWrittenTitles, row)
    ensures RbiCandidate(web, AsWrittenTitles, row) == RbiCandidate(web, FixedTitles, row)
  {
    if RbiHref(row).Some? {
      RbiTitleFix(row.text, row.link.href);
    }
  }

  // ---------------------------------------------------------------- the NHB scraper

  /** A candidate block of the NHB page: the `href` of its first anchor whose text contains
      "Download" (`""` when the attribute is missing), if it has one, and its text. */
  datatype Block = Block(download: Option<string>, text: string)

  /** The absolute URL of a block the loop goes on to download: the block has a
      "Download" anchor whose stripped `href` is not empty, and the URL built from it ends,
      in lower case, with an allowed extension. */
  function NhbLink(b: Block): (url: Option<string>)
    ensures url.Some? ==> EndsWithAllowed(Lower(url.value)) && StartsWith(url.value, "http")
  {
    if b.download.None? || Strip(b.download.value) == [] then None
    else
      var url := NhbUrl(Strip(b.download.value));
      if EndsWithAllowed(Lower(url)) then Some(url) else None
  }

  /** The file an NHB block yields before the dedup check, or None when the block is skipped
      or its download raises. */
  function NhbCandidate(web: Web, b: Block): Option<Fetched> {
    match NhbLink(b)
    case None => None
    case Some(url) =>
      match web.fetch(url)
      case None => None
      case Some(content) =>
        Some(Fetched("NHB", NhbTitle(b.text, url), url, OnDay(web.nhbDate(b.text, url)), content, url))
  }

  function NhbFetched(web: Web, blocks: seq<Block>): seq<Fetched>
    decreases |blocks|
  {
    if blocks == [] then [] else NhbFetched(web, blocks[..|blocks| - 1]) + Present(NhbCandidate(web, blocks[|blocks| - 1]))
  }

  lemma NhbFetchedStep(t: Tables, web: Web, blocks: seq<Block>, k: nat, force: bool)
    requires k < |blocks|
    ensures KeepAll(t, web, NhbFetched(web, blocks[..k + 1]), force)
            == KeepOpt(KeepAll(t, web, NhbFetched(web, blocks[..k]), force), web, NhbCandidate(web, blocks[k]), force)
  {
    assert blocks[..k + 1][..k] == blocks[..k];
    KeepAllSnoc(t, web, NhbFetched(web, blocks[..k]), NhbCandidate(web, blocks[k]), force);
  }

  /** The NHB loop body for one block; `saved` is whether it inserted a row. */
  method NhbBlockStep(conn: Connection, web: Web, block: Block, force: bool) returns (saved: bool)
    modifies conn
    ensures conn.View() == KeepOpt(old(conn.View()), web, NhbCandidate(web, block), force)
    ensures |conn.View().updates| == |old(conn.View()).updates| + (if saved then 1 else 0)
  {
    var url := NhbLink(block);
    if url.None? {
      return false;
    }
    var title := NhbTitle(block.text, url.value);
    var pubDate := OnDay(web.nhbDate(block.text, url.value));
    var content := web.fetch(url.value);
    if content.None? {
      return false;
    }
    saved := SaveIfNew(conn, web, Fetched("NHB", title, url.value, pubDate, content.value, url.value), force);
  }

  /** Every file the NHB scraper stores has a URL ending in an allowed extension and a
      non-empty title. */
  lemma NhbCandidateShape(web: Web, b: Block)
    requires NhbCandidate(web, b).Some?
    ensures EndsWithAllowed(Lower(NhbCandidate(web, b).value.url))
    ensures StartsWith(NhbCandidate(web, b).value.url, "http")
    ensures NhbCandidate(web, b).value.title != []
  {
    NhbTitleNotEmpty(b.text, NhbLink(b).value);
  }

  /** `scrape_nhb_notifications`: nothing happens when the page does not load; otherwise the
      kept blocks' files are stored in page order, deduplicated unless forced, and committed
      once, and `found` counts the rows inserted. */
  method ScrapeNhb(db: Database, web: Web, page: Option<seq<Block>>, force: bool) returns (found: nat)
    modifies db
    ensures page.None? ==> found == 0 && db.tables == old(db.tables)
    ensures page.Some? ==> db.tables == KeepAll(old(db.tables), web, NhbFetched(web, page.value), force)
    ensures |db.tables.updates| == |old(db.tables).updates| + found
  {
    if page.None? {
      return 0;
    }
    var blocks := page.value;
    var conn := new Connection(db);
    ghost var start := db.tables;
    found := 0;
    var k := 0;
    while k < |blocks|
      invariant 0 <= k <= |blocks|
      invariant conn.db == db && db.tables == start
      invariant conn.View() == KeepAll(start, web, NhbFetched(web, blocks[..k]), force)
      invariant |conn.View().updates| == |start.updates| + found
    {
      NhbFetchedStep(start, web, blocks, k, force);
      var saved := NhbBlockStep(conn, web, blocks[k], force);
      if saved {
        found := found + 1;
      }
      k := k + 1;
    }
    assert blocks[..k] == blocks;
    conn.Commit();
  }
}
