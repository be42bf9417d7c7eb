/** The boilerplate cleaner of processor.py (`clean_rbi_headers`): seven header
    rules, each a regular expression `head.*?mid.*?\n` compiled with IGNORECASE
    and DOTALL, removed in turn with `re.sub`, then the text is stripped.

    A rule is a literal head, literal middle parts and the final newline, with a
    lazy "anything, newlines included" between them. Matching is leftmost and
    non-overlapping, and a lazy gap takes the first occurrence of what follows
    it, which is what backtracking settles on for such patterns. */
module Cleaner {

  import opened Text
  import opened Wrappers

  datatype Rule = Rule(head: string, mids: seq<string>)

  /** The rules of processor.py, in the order they are applied. */
  const Rules: seq<Rule> := [
    Rule("बेटी बचाओ", []),
    Rule("RESERVE BANK OF INDIA", []),
    Rule("भारतीय", ["रज़वर् बैंक"]),
    Rule("Department of ", [", Central Office"]),
    Rule("Tel:", []),
    Rule("Fax:", []),
    Rule("Email", [])
  ]

  /** Case-insensitive prefix test. */
  predicate StartsWithCI(s: string, p: string) {
    |p| <= |s| && Lower(s[..|p|]) == Lower(p)
  }

  /** The first position at which `lit` occurs in `s`, ignoring case. */
  function Find(lit: string, s: string): (r: Option<nat>)
    ensures r.Some? ==> r.value + |lit| <= |s|
    decreases |s|
  {
    if StartsWithCI(s, lit) then Some(0)
    else if s == [] then None
    else
      match Find(lit, s[1..])
      case None => None
      case Some(q) => Some(q + 1)
  }

  /** `Find` gives the first occurrence, and nothing exactly when there is none. */
  lemma {:induction false} FindFirst(lit: string, s: string)
    ensures Find(lit, s).Some? ==> StartsWithCI(s[Find(lit, s).value..], lit)
    ensures Find(lit, s).Some? ==> forall j | 0 <= j < Find(lit, s).value :: !StartsWithCI(s[j..], lit)
    ensures Find(lit, s).None? ==> forall j | 0 <= j <= |s| :: !StartsWithCI(s[j..], lit)
    decreases |s|
  {
    if !StartsWithCI(s, lit) && s != [] {
      FindFirst(lit, s[1..]);
      assert s[0..] == s;
      assert forall j | 1 <= j <= |s| :: s[j..] == s[1..][j - 1..];
    }
  }

  /** The length of the shortest prefix of `s` matched by `.*?l1.*?l2 ... .*?lk`. */
  function Lazy(lits: seq<string>, s: string): (r: Option<nat>)
    ensures r.Some? ==> r.value <= |s|
    decreases |lits|
  {
    if lits == [] then Some(0)
    else match Find(lits[0], s)
      case None => None
      case Some(q) =>
        var e := q + |lits[0]|;
        match Lazy(lits[1..], s[e..])
        case None => None
        case Some(k) => Some(e + k)
  }

  /** The length of the match of `rule` at the very start of `s`, if it matches there:
      the head, the middle parts each at its first occurrence, then everything
      up to and including the next newline. */
  function MatchAt(rule: Rule, s: string): (r: Option<nat>)
    ensures r.Some? ==> StartsWithCI(s, rule.head)
    ensures r.Some? ==> |rule.head| < r.value <= |s| && s[r.value - 1] == '\n'
  {
    if !StartsWithCI(s, rule.head) then None
    else
      var t := s[|rule.head|..];
      match Lazy(rule.mids, t)
      case None => None
      case Some(e) =>
        match IndexOf(t[e..], '\n')
        case None => None
        case Some(n) => Some(|rule.head| + e + n + 1)
  }

  /** `re.sub(rule, "", s)`: every leftmost, non-overlapping match deleted. */
  function Sub(rule: Rule, s: string): (r: string)
    ensures |r| <= |s|
    decreases |s|
  {
    if s == [] then []
    else match MatchAt(rule, s)
      case Some(k) => Sub(rule, s[k..])
      case None => [s[0]] + Sub(rule, s[1..])
  }

  /** The rules applied one after another, first rule first. */
  function SubAll(rules: seq<Rule>, s: string): string {
    if rules == [] then s else Sub(rules[|rules| - 1], SubAll(rules[..|rules| - 1], s))
  }

  /** `clean_rbi_headers(text)` as a value. */
  function Clean(text: string): string {
    Strip(SubAll(Rules, text))
  }

  /** `clean_rbi_headers`: the loop that rewrites `text` once per rule, then strips. */
  method CleanRbiHeaders(text: string) returns (r: string)
    ensures r == Clean(text)
    ensures r == [] || (!IsSpace(r[0]) && !IsSpace(r[|r| - 1]))
    ensures |r| <= |text|
  {
    var t := SubEach(Rules, text);
    r := Strip(t);
  }

  /** The rewriting loop of `clean_rbi_headers`, over any list of rules. */
  method SubEach(rules: seq<Rule>, text: string) returns (t: string)
    ensures t == SubAll(rules, text)
    ensures |t| <= |text|
  {
    t := text;
    for i := 0 to |rules|
      invariant t == SubAll(rules[..i], text)
      invariant |t| <= |text|
    {
      assert rules[..i + 1][..i] == rules[..i];
      t := Sub(rules[i], t);
    }
    assert rules[..|rules|] == rules;
  }

  /** A line that `rule` (one without middle parts) matches as a whole: it starts
      with the head, ignoring case, and its only newline is its last character. */
  predicate IsHeaderLine(rule: Rule, line: string) {
    && |rule.head| < |line|
    && StartsWithCI(line, rule.head)
    && line[|line| - 1] == '\n'
    && '\n' !in line[|rule.head|..|line| - 1]
  }

  /** A rule never matches where no newline follows: text without a newline is kept,
      whatever headers it holds. */
  lemma {:induction false} NewlineFreeTextKept(rule: Rule, s: string)
    requires '\n' !in s
    ensures Sub(rule, s) == s
    decreases |s|
  {
    if s != [] {
      assert forall k | 0 <= k < |s| :: s[k] != '\n';
      assert MatchAt(rule, s) == None;
      assert '\n' !in s[1..] by {
        forall k | 0 <= k < |s[1..]| ensures s[1..][k] != '\n' {
          assert s[1..][k] == s[k + 1];
        }
      }
      NewlineFreeTextKept(rule, s[1..]);
    }
  }

  /** Text in which the head of `rule` never occurs, ignoring case, is kept. */
  lemma {:induction false} TextWithoutHeadKept(rule: Rule, s: string)
    requires Find(rule.head, s) == None
    ensures Sub(rule, s) == s
    decreases |s|
  {
    if s != [] {
      FindFirst(rule.head, s);
      assert s[0..] == s;
      assert MatchAt(rule, s) == None;
      forall j | 0 <= j <= |s[1..]| ensures !StartsWithCI(s[1..][j..], rule.head) {
        assert s[1..][j..] == s[j + 1..];
      }
      TextWithoutHeadKept(rule, s[1..]);
    }
  }

  /** A header line is deleted through its newline, and scanning resumes after it. */
  lemma HeaderLineDeleted(rule: Rule, line: string, rest: string)
    requires rule.mids == [] && IsHeaderLine(rule, line)
    ensures Sub(rule, line + rest) == Sub(rule, rest)
  {
    var s := line + rest;
    var h := |rule.head|;
    assert s[..h] == line[..h];
    var t := s[h..];
    assert Lazy(rule.mids, t) == Some(0);
    assert t[0..] == t;
    var n := |line| - 1 - h;
    assert t[n] == '\n';
    assert forall k | 0 <= k < n :: t[k] == line[h..|line| - 1][k];
    assert IndexOf(t, '\n') == Some(n);
    assert MatchAt(rule, s) == Some(|line|);
    assert s[|line|..] == rest;
  }

  /** Consecutive header lines are all deleted: only what follows them is left to scan.
      In particular a text made of header lines alone is cleaned to nothing, and a
      trailing header with no newline after it stays. */
  lemma {:induction false} HeaderLinesDeleted(rule: Rule, lines: seq<string>, rest: string)
    requires rule.mids == []
    requires forall i | 0 <= i < |lines| :: IsHeaderLine(rule, lines[i])
    ensures Sub(rule, Flatten(lines) + rest) == Sub(rule, rest)
    ensures '\n' !in rest ==> Sub(rule, Flatten(lines) + rest) == rest
    decreases |lines|
  {
    if lines != [] {
      assert lines == [lines[0]] + lines[1..];
      FlattenCons(lines[0], lines[1..]);
      assert Flatten(lines) + rest == lines[0] + (Flatten(lines[1..]) + rest);
      HeaderLineDeleted(rule, lines[0], Flatten(lines[1..]) + rest);
      HeaderLinesDeleted(rule, lines[1..], rest);
    } else {
      assert Flatten(lines) + rest == rest;
    }
    if '\n' !in rest {
      NewlineFreeTextKept(rule, rest);
    }
  }

  lemma LazyOne(lit: string, t: string, q: nat)
    requires Find(lit, t) == Some(q)
    ensures Lazy([lit], t) == Some(q + |lit|)
  {
    assert [lit][1..] == [];
  }

  lemma IndexOfAt(u: string, n: nat)
    requires n < |u| && u[n] == '\n' && '\n' !in u[..n]
    ensures IndexOf(u, '\n') == Some(n)
  {
    assert forall k | 0 <= k < n :: u[k] == u[..n][k];
  }

  lemma MatchThrough(rule: Rule, s: string, e: nat, n: nat, k: nat)
    requires StartsWithCI(s, rule.head)
    requires Lazy(rule.mids, s[|rule.head|..]) == Some(e)
    requires IndexOf(s[|rule.head|..][e..], '\n') == Some(n)
    requires k == |rule.head| + e + n + 1
    ensures MatchAt(rule, s) == Some(k)
  {
  }

  /** `re.sub` deletes a match at the start of the text and resumes scanning after it. */
  lemma SubAfterMatch(rule: Rule, s: string, k: nat)
    requires MatchAt(rule, s) == Some(k)
    ensures k <= |s| && Sub(rule, s) == Sub(rule, s[k..])
  {
  }

  /** Text in which no position starts the rule's head is copied through unchanged, and
      the substitution goes on with what follows it. */
  lemma {:induction false} SubSkipsPrefix(rule: Rule, p: string, s: string)
    requires forall i | 0 <= i < |p| :: !StartsWithCI((p + s)[i..], rule.head)
    ensures Sub(rule, p + s) == p + Sub(rule, s)
    decreases |p|
  {
    if p == [] {
      assert p + s == s;
    } else {
      assert (p + s)[0..] == p + s;
      SubCopiesFirst(rule, p + s);
      assert (p + s)[1..] == p[1..] + s;
      HeadFreeTail(rule, p, s);
      SubSkipsPrefix(rule, p[1..], s);
      assert [p[0]] + (p[1..] + Sub(rule, s)) == p + Sub(rule, s);
    }
  }

  lemma HeadFreeTail(rule: Rule, p: string, s: string)
    requires p != []
    requires forall i | 0 <= i < |p| :: !StartsWithCI((p + s)[i..], rule.head)
    ensures forall i | 0 <= i < |p[1..]| :: !StartsWithCI((p[1..] + s)[i..], rule.head)
  {
    forall i | 0 <= i < |p[1..]| ensures !StartsWithCI((p[1..] + s)[i..], rule.head) {
      assert (p[1..] + s)[i..] == (p + s)[i + 1..];
    }
  }

  lemma SubCopiesFirst(rule: Rule, t: string)
    requires t != [] && !StartsWithCI(t, rule.head)
    ensures Sub(rule, t) == [t[0]] + Sub(rule, t[1..])
  {
  }

  /** Each match is deleted wherever it occurs: after a stretch of text in which the rule's
      head does not start, a header span `m` is removed and the rest is cleaned on its
      own. */
  lemma HeaderDeletedAnywhere(rule: Rule, p: string, m: string, s: string)
    requires MatchAt(rule, m + s) == Some(|m|)
    requires forall i | 0 <= i < |p| :: !StartsWithCI((p + (m + s))[i..], rule.head)
    ensures Sub(rule, p + m + s) == p + Sub(rule, s)
  {
    assert p + m + s == p + (m + s);
    SubSkipsPrefix(rule, p, m + s);
    SubAfterMatch(rule, m + s, |m|);
    assert (m + s)[|m|..] == s;
  }

  lemma SpanLazy(rule: Rule, s: string, q: nat)
    requires |rule.mids| == 1
    requires |rule.head| <= |s|
    requires Find(rule.mids[0], s[|rule.head|..]) == Some(q)
    ensures |rule.head| + q + |rule.mids[0]| <= |s|
    ensures Lazy(rule.mids, s[|rule.head|..]) == Some(q + |rule.mids[0]|)
    ensures s[|rule.head|..][q + |rule.mids[0]|..] == s[|rule.head| + q + |rule.mids[0]|..]
  {
    assert rule.mids == [rule.mids[0]];
    LazyOne(rule.mids[0], s[|rule.head|..], q);
  }

  /** A rule with a middle part (compiled with DOTALL) matches from its head to the
      first occurrence of the middle part, across any newlines in between, and on
      through the first newline after that middle part; `SubAfterMatch` then deletes
      all of it. */
  lemma HeaderSpanCrossesLines(rule: Rule, s: string, q: nat, n: nat)
    requires |rule.mids| == 1
    requires StartsWithCI(s, rule.head)
    requires Find(rule.mids[0], s[|rule.head|..]) == Some(q)
    requires |rule.head| + q + |rule.mids[0]| <= |s|
    requires IndexOf(s[|rule.head| + q + |rule.mids[0]|..], '\n') == Some(n)
    ensures MatchAt(rule, s) == Some(|rule.head| + q + |rule.mids[0]| + n + 1)
  {
    SpanLazy(rule, s, q);
    MatchThrough(rule, s, q + |rule.mids[0]|, n, |rule.head| + q + |rule.mids[0]| + n + 1);
  }

  /** Rules whose heads do not occur leave the text as it is. */
  lemma {:induction false} SubAllKeeps(rules: seq<Rule>, s: string)
    requires forall i | 0 <= i < |rules| :: Find(rules[i].head, s) == None
    ensures SubAll(rules, s) == s
    decreases |rules|
  {
    if rules != [] {
      SubAllKeeps(rules[..|rules| - 1], s);
      TextWithoutHeadKept(rules[|rules| - 1], s);
    }
  }

  /** Text with none of the seven headers in it is only stripped. */
  lemma CleanWithoutHeaders(text: string)
    requires forall i | 0 <= i < |Rules| :: Find(Rules[i].head, text) == None
    ensures Clean(text) == Strip(text)
  {
    SubAllKeeps(Rules, text);
  }
}
