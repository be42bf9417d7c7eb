/** `clean_json_string`: turns a model's reply into JSON text by removing Markdown code
    fences, falling back to the first bracketed span, and finally to an empty array. */
module JsonRepair {

  import opened Wrappers
  import opened Text
  import opened Json

  /** `re.sub(r"```(?:json)?", "", s)`: leftmost, non-overlapping, case-sensitive; an
      opening fence takes the `json` tag with it when one follows. */
  function DropFenceMarkers(s: string): (r: string)
    ensures |r| <= |s|
    decreases |s|
  {
    if s == [] then []
    else
      var k := MarkerAt(s);
      (if k == 0 then [s[0]] else []) + DropFenceMarkers(s[if k == 0 then 1 else k..])
  }

  /** The length of the fence marker `s` starts with: `` ```json ``, else `` ``` ``, else none. */
  function MarkerAt(s: string): (k: nat)
    ensures k == 0 || k == 3 || k == 7
    ensures k <= |s|
    ensures s != [] && s[0] != '`' ==> k == 0
  {
    if StartsWith(s, "```json") then 7
    else if StartsWith(s, "```") then 3
    else 0
  }

  /** `s.replace("```", "")`. */
  function DropFences(s: string): (r: string)
    ensures |r| <= |s|
    decreases |s|
  {
    if StartsWith(s, "```") then DropFences(s[3..])
    else if s == [] then []
    else [s[0]] + DropFences(s[1..])
  }

  /** A prefix without backticks passes through both fence removals untouched. */
  lemma {:induction false} NoTicksKeptMarkers(t: string, u: string)
    requires '`' !in t
    ensures DropFenceMarkers(t + u) == t + DropFenceMarkers(u)
    decreases |t|
  {
    if t == [] {
      assert t + u == u;
    } else {
      var s := t + u;
      assert s[0] == t[0];
      assert s[1..] == t[1..] + u;
      NoTicksKeptMarkers(t[1..], u);
    }
  }

  lemma {:induction false} NoTicksKeptFences(t: string, u: string)
    requires '`' !in t
    ensures DropFences(t + u) == t + DropFences(u)
    decreases |t|
  {
    if t == [] {
      assert t + u == u;
    } else {
      var s := t + u;
      assert s[0] == t[0] != '`';
      assert !StartsWith(s, "```");
      assert s[1..] == t[1..] + u;
      NoTicksKeptFences(t[1..], u);
      assert t + DropFences(u) == [t[0]] + (t[1..] + DropFences(u));
    }
  }

  lemma NoTicksUnchanged(s: string)
    requires '`' !in s
    ensures DropFenceMarkers(s) == s && DropFences(s) == s
  {
    NoTicksKeptMarkers(s, []);
    NoTicksKeptFences(s, []);
    assert s + [] == s;
  }

  /** The text `clean_json_string` first tries to parse. */
  function Unfenced(raw: string): string {
    Strip(DropFences(DropFenceMarkers(Strip(raw))))
  }

  /** `m.group(1)` of `re.search(r"(\{.*\}|\[.*\])", s, re.DOTALL)`, searching from `i`: the
      leftmost opening brace or bracket that has a matching closer somewhere after it,
      through the last such closer in `s` (the `.*` is greedy). */
  function SpanFrom(s: string, i: nat): Option<string>
    requires i <= |s|
    decreases |s| - i
  {
    if i == |s| then None
    else match Closer(s, i)
      case Some(q) => Some(s[i..q + 1])
      case None => SpanFrom(s, i + 1)
  }

  /** The span found runs from an opener through the last closer of its kind; there is
      none exactly when no position from `i` on opens one. */
  lemma {:induction false} SpanFromShape(s: string, i: nat)
    requires i <= |s|
    ensures SpanFrom(s, i).Some? ==>
              exists p, q | i <= p < q < |s| :: SpanFrom(s, i).value == s[p..q + 1] && BracketPair(s, p, q)
    ensures SpanFrom(s, i).None? <==> forall p | i <= p < |s| :: !Opens(s, p)
    decreases |s| - i
  {
    if i < |s| {
      CloserShape(s, i);
      match Closer(s, i)
      case Some(q) =>
        assert SpanFrom(s, i).value == s[i..q + 1] && BracketPair(s, i, q);
      case None =>
        SpanFromShape(s, i + 1);
    }
  }

  /** `s[p]` opens a span and `s[q]` is the last closer of its kind in `s`. */
  ghost predicate BracketPair(s: string, p: nat, q: nat)
    requires p < q < |s|
  {
    && ((s[p] == '{' && s[q] == '}') || (s[p] == '[' && s[q] == ']'))
    && forall k | q < k < |s| :: s[k] != s[q]
  }

  /** A bracket or brace at `p` that is closed somewhere after `p`. */
  ghost predicate Opens(s: string, p: nat)
    requires p < |s|
  {
    exists q | p < q < |s| :: (s[p] == '{' && s[q] == '}') || (s[p] == '[' && s[q] == ']')
  }

  function Closer(s: string, p: nat): (r: Option<nat>)
    requires p < |s|
    ensures r.Some? ==> p < r.value < |s|
  {
    var want := if s[p] == '{' then Some('}') else if s[p] == '[' then Some(']') else None;
    match want
    case None => None
    case Some(c) =>
      match LastIndexOf(s, c)
      case Some(q) => if p < q then Some(q) else None
      case None => None
  }

  /** The closer `Closer` finds is the last one of the opener's kind; there is none
      exactly when `s[p]` opens no span. */
  lemma CloserShape(s: string, p: nat)
    requires p < |s|
    ensures Closer(s, p).Some? ==> BracketPair(s, p, Closer(s, p).value)
    ensures Closer(s, p).None? <==> !Opens(s, p)
  {
  }

  function BracketSpan(s: string): Option<string> {
    SpanFrom(s, 0)
  }

  /** `clean_json_string(raw)`: the re-serialisation of the unfenced reply when it parses,
      else of its first bracketed span when that parses, else `"[]"`. */
  function Repair(c: Codec, raw: string): string {
    var cleaned := Unfenced(raw);
    match c.parse(cleaned)
    case Some(v) => c.dump(v)
    case None =>
      match BracketSpan(cleaned)
      case None => "[]"
      case Some(span) =>
        match c.parse(span)
        case Some(v) => c.dump(v)
        case None => "[]"
  }

  /** No character that opens or closes a span, and no backtick. */
  predicate Plain(s: string) {
    forall k | 0 <= k < |s| :: s[k] !in "[]{}`"
  }

  /** A reply that is not JSON as a whole but holds one serialised list, amid text with no
      brackets, braces or backticks, is repaired to that list: the second choice of
      `clean_json_string` recovers it. */
  lemma BracketedReplyRecovered(c: Codec, pre: string, xs: seq<Json>, post: string)
    requires Lawful(c) && Canonical(c, JArray(xs))
    requires Plain(pre) && Plain(post) && '`' !in c.dump(JArray(xs))
    requires c.parse(Unfenced(pre + c.dump(JArray(xs)) + post)).None?
    ensures Repair(c, pre + c.dump(JArray(xs)) + post) == c.dump(JArray(xs))
  {
    var d := c.dump(JArray(xs));
    var raw := pre + d + post;
    var a, b := StripInside(pre, d, post);
    var u, w := pre[a..], post[..b];
    PlainParts(pre, post, a, b);
    NoTicksAround(u, d, w);
    UnfencedClean(raw, u + d + w);
    PlainSpan(u, d, w, u + d + w);
    assert c.parse(d) == Some(JArray(xs));
  }

  lemma PlainParts(pre: string, post: string, a: nat, b: nat)
    requires Plain(pre) && Plain(post) && a <= |pre| && b <= |post|
    ensures Plain(pre[a..]) && Plain(post[..b])
  {
    forall k | 0 <= k < |pre| - a ensures pre[a..][k] !in "[]{}`" {
      assert pre[a..][k] == pre[a + k];
    }
  }

  lemma NoTicksAround(u: string, d: string, w: string)
    requires Plain(u) && Plain(w) && '`' !in d
    ensures '`' !in u + d + w
  {
    var s := u + d + w;
    forall k | 0 <= k < |s| ensures s[k] != '`' {
      if k < |u| {
        assert s[k] == u[k];
      } else if k < |u| + |d| {
        assert s[k] == d[k - |u|];
      } else {
        assert s[k] == w[k - |u| - |d|];
      }
    }
  }

  /** A reply whose stripped text holds no backtick is read as that text. */
  lemma UnfencedClean(raw: string, s: string)
    requires Strip(raw) == s && '`' !in s
    ensures Unfenced(raw) == s
  {
    NoTicksUnchanged(s);
    StripClean(s);
  }

  /** How `strip()` cuts a text whose middle part has no whitespace at either end: it
      keeps a suffix of the part before and a prefix of the part after. */
  lemma StripInside(pre: string, d: string, post: string) returns (a: nat, b: nat)
    requires d != [] && !IsSpace(d[0]) && !IsSpace(d[|d| - 1])
    ensures a <= |pre| && b <= |post|
    ensures Strip(pre + d + post) == pre[a..] + d + post[..b]
  {
    assert pre + d + post == pre + (d + post);
    a := LStripInside(pre, d + post);
    assert pre[a..] + (d + post) == (pre[a..] + d) + post;
    b := RStripInside(pre[a..] + d, post);
  }

  /** `lstrip()` of a text whose later part starts with a non-space cuts only the earlier
      part. */
  lemma LStripInside(pre: string, rest: string) returns (a: nat)
    requires rest != [] && !IsSpace(rest[0])
    ensures a <= |pre| && LStrip(pre + rest) == pre[a..] + rest
  {
    var raw := pre + rest;
    LStripShape(raw);
    a := |raw| - |LStrip(raw)|;
    assert raw[|pre|] == rest[0];
    SpaceRunEnds(raw[..a], |pre|, raw);
    assert raw[a..] == pre[a..] + rest;
  }

  /** `rstrip()` of a text whose earlier part ends with a non-space cuts only the later
      part. */
  lemma RStripInside(body: string, post: string) returns (b: nat)
    requires body != [] && !IsSpace(body[|body| - 1])
    ensures b <= |post| && RStrip(body + post) == body + post[..b]
  {
    var raw := body + post;
    var r := RStrip(raw);
    RStripShape(raw);
    assert raw[|body| - 1] == body[|body| - 1];
    SpaceTailStarts(raw, |r|, |body| - 1);
    b := |r| - |body|;
    assert raw[..|r|] == body + post[..b];
  }

  lemma SpaceRunEnds(run: string, m: nat, x: string)
    requires AllSpace(run) && run <= x
    requires m < |x| && !IsSpace(x[m])
    ensures |run| <= m
  {
  }

  lemma SpaceTailStarts(l: string, n: nat, m: nat)
    requires n <= |l| && AllSpace(l[n..])
    requires m < |l| && !IsSpace(l[m])
    ensures m < n
  {
  }

  /** In text made of a list's dump between plain text, the first bracketed span is the
      dump. */
  lemma PlainSpan(u: string, d: string, w: string, s: string)
    requires Plain(u) && Plain(w)
    requires |d| >= 2 && d[0] == '[' && d[|d| - 1] == ']'
    requires s == u + d + w
    ensures BracketSpan(s) == Some(d)
  {
    var p := |u|;
    var q := |u| + |d| - 1;
    assert s[p] == '[' && s[q] == ']';
    forall k | q < k < |s| ensures s[k] != ']' {
      assert s[k] == w[k - q - 1];
    }
    assert LastIndexOf(s, ']') == Some(q);
    assert Closer(s, p) == Some(q);
    assert s[p..q + 1] == d;
    SpanSkips(s, 0, p);
  }

  /** Positions holding no opener are skipped by the search. */
  lemma {:induction false} SpanSkips(s: string, i: nat, p: nat)
    requires i <= p < |s|
    requires forall k | i <= k < p :: s[k] != '{' && s[k] != '['
    ensures SpanFrom(s, i) == SpanFrom(s, p)
    decreases p - i
  {
    if i < p {
      SpanSkips(s, i + 1, p);
    }
  }

  /** Whatever the reply, the repaired text is valid JSON. */
  lemma RepairParses(c: Codec, raw: string)
    requires Lawful(c)
    ensures c.parse(Repair(c, raw)).Some?
  {
    var cleaned := Unfenced(raw);
    match c.parse(cleaned)
    case Some(v) => assert c.parse(c.dump(v)) == Some(v);
    case None =>
      match BracketSpan(cleaned)
      case None => assert c.parse(c.dump(JArray([]))) == Some(JArray([]));
      case Some(span) =>
        match c.parse(span)
        case Some(v) => assert c.parse(c.dump(v)) == Some(v);
        case None => assert c.parse(c.dump(JArray([]))) == Some(JArray([]));
  }

  /** A reply wrapped in a ```` ```json ```` fence is read as the text inside it. */
  lemma FencedReplyUnwrapped(c: Codec, body: string, v: Json)
    requires '`' !in body
    requires body != [] && !IsSpace(body[0]) && !IsSpace(body[|body| - 1])
    requires c.parse(body) == Some(v)
    ensures Repair(c, "```json\n" + body + "\n```") == c.dump(v)
  {
    FencedUnfenced(body, "```json\n" + body + "\n```");
  }

  lemma FencedUnfenced(body: string, raw: string)
    requires '`' !in body
    requires body != [] && !IsSpace(body[0]) && !IsSpace(body[|body| - 1])
    requires raw == "```json\n" + body + "\n```"
    ensures Unfenced(raw) == body
  {
    var inner := "\n" + body + "\n";
    TicksAtEnds(body, raw);
    FenceMarkersOfFenced(body, inner, raw);
    NoTicksUnchanged(inner);
    NewlinesStripped(body, inner);
  }

  lemma TicksAtEnds(body: string, raw: string)
    requires raw == "```json\n" + body + "\n```"
    ensures Unfenced(raw) == Strip(DropFences(DropFenceMarkers(raw)))
  {
    assert raw[0] == '`' && raw[|raw| - 1] == '`';
    StripClean(raw);
  }

  lemma NewlinesStripped(body: string, inner: string)
    requires inner == "\n" + body + "\n"
    requires body != [] && !IsSpace(body[0]) && !IsSpace(body[|body| - 1])
    ensures Strip(inner) == body
  {
    assert AllSpace("\n");
    StripPadded("\n", body, "\n");
  }

  lemma FenceMarkersOfFenced(body: string, inner: string, raw: string)
    requires '`' !in body
    requires inner == "\n" + body + "\n"
    requires raw == "```json\n" + body + "\n```"
    ensures '`' !in inner
    ensures DropFenceMarkers(raw) == inner
  {
    assert StartsWith(raw, "```json");
    assert raw[7..] == inner + "```";
    NoTicksKeptMarkers(inner, "```");
    assert DropFenceMarkers("```") == DropFenceMarkers([]);
    assert inner + [] == inner;
  }

  /** Serialised JSON without backticks is left as it is. */
  lemma RepairOfDump(c: Codec, v: Json)
    requires Lawful(c) && Canonical(c, v)
    requires '`' !in c.dump(v)
    ensures Repair(c, c.dump(v)) == c.dump(v)
  {
    var r := c.dump(v);
    assert c.parse(r) == Some(v);
    assert r != [] && !IsSpace(r[0]) && !IsSpace(r[|r| - 1]);
    StripClean(r);
    NoTicksUnchanged(r);
    assert Unfenced(r) == r;
  }

  /** Repairing text that is already repaired, and holds no backtick, gives it back. */
  lemma RepairIdempotent(c: Codec, raw: string)
    requires Lawful(c)
    requires '`' !in Repair(c, raw)
    ensures Repair(c, Repair(c, raw)) == Repair(c, raw)
  {
    var cleaned := Unfenced(raw);
    match c.parse(cleaned)
    case Some(w) => RepairOfDump(c, w);
    case None =>
      match BracketSpan(cleaned)
      case None => RepairOfDump(c, JArray([]));
      case Some(span) =>
        match c.parse(span)
        case Some(w) => RepairOfDump(c, w);
        case None => RepairOfDump(c, JArray([]));
  }

  /** Text with no brace or bracket that does not parse as a whole repairs to `"[]"`. */
  lemma UnbracketedGarbageIsEmpty(c: Codec, raw: string)
    requires c.parse(Unfenced(raw)).None?
    requires forall k | 0 <= k < |Unfenced(raw)| :: Unfenced(raw)[k] != '{' && Unfenced(raw)[k] != '['
    ensures Repair(c, raw) == "[]"
  {
    var s := Unfenced(raw);
    forall p | 0 <= p < |s| ensures !Opens(s, p) {
      assert s[p] != '{' && s[p] != '[';
    }
    SpanFromShape(s, 0);
  }
}
