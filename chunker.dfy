/** The chunker of processor.py (`chunk_text`): consecutive, non-overlapping
    windows of at most `max_words` whitespace-separated words, each re-joined
    with single spaces. */
module Chunker {

  import opened Text

  /** The window size both callers use. */
  const DefaultMaxWords: nat := 400

  /** `[ws[i:i+m] for i in range(0, len(ws), m)]`: the words cut into windows of `m`. */
  function Windows<T>(ws: seq<T>, m: nat): seq<seq<T>>
    requires m > 0
    decreases |ws|
  {
    if |ws| == 0 then []
    else if |ws| <= m then [ws]
    else [ws[..m]] + Windows(ws[m..], m)
  }

  /** The windows, concatenated, are the words again. */
  lemma {:induction false} WindowsFlatten<T>(ws: seq<T>, m: nat)
    requires m > 0
    ensures Flatten(Windows(ws, m)) == ws
    decreases |ws|
  {
    if |ws| == 0 {
    } else if |ws| <= m {
      FlattenCons(ws, []);
      assert [ws] + [] == [ws];
    } else {
      WindowsFlatten(ws[m..], m);
      FlattenCons(ws[..m], Windows(ws[m..], m));
      assert ws == ws[..m] + ws[m..];
    }
  }

  /** There are `CeilDiv(|ws|, m)` windows, each non-empty and at most `m` long, and all
      but the last exactly `m` long. */
  lemma {:induction false} WindowsSizes<T>(ws: seq<T>, m: nat)
    requires m > 0
    ensures |Windows(ws, m)| == CeilDiv(|ws|, m)
    ensures forall i | 0 <= i < |Windows(ws, m)| :: 0 < |Windows(ws, m)[i]| <= m
    ensures forall i | 0 <= i < |Windows(ws, m)| - 1 :: |Windows(ws, m)[i]| == m
    decreases |ws|
  {
    if |ws| > m {
      var rest := Windows(ws[m..], m);
      WindowsSizes(ws[m..], m);
      var r := Windows(ws, m);
      assert r == [ws[..m]] + rest;
      assert forall i | 1 <= i < |r| :: r[i] == rest[i - 1];
    }
  }

  /** Every word of a window is one of the words. */
  lemma {:induction false} WindowsMembers<T>(ws: seq<T>, m: nat)
    requires m > 0
    ensures forall i, x | 0 <= i < |Windows(ws, m)| && x in Windows(ws, m)[i] :: x in ws
    decreases |ws|
  {
    if |ws| > m {
      var rest := Windows(ws[m..], m);
      WindowsMembers(ws[m..], m);
      var r := Windows(ws, m);
      assert r == [ws[..m]] + rest;
      forall i, x | 0 <= i < |r| && x in r[i] ensures x in ws {
        if i == 0 {
          assert x in ws[..m];
        } else {
          assert r[i] == rest[i - 1];
          assert x in ws[m..];
        }
      }
    }
  }

  lemma MulGap(a: int, b: int, m: int)
    requires m > 0
    ensures a > b ==> a * m >= b * m + m
    decreases if a > b then a - b else 0
  {
    if a > b + 1 {
      MulGap(a - 1, b, m);
      assert a * m == (a - 1) * m + m;
    } else if a == b + 1 {
      assert a * m == b * m + m;
    }
  }

  lemma DivUnique(x: int, m: int, q: int, r: int)
    requires m > 0 && 0 <= r < m && x == q * m + r
    ensures x / m == q
  {
    var q', r' := x / m, x % m;
    assert x == q' * m + r';
    MulGap(q', q, m);
    MulGap(q, q', m);
  }

  /** The number of windows of `m` that `n` items fill, the last one possibly partly. */
  function CeilDiv(n: nat, m: nat): nat
    requires m > 0
    decreases n
  {
    if n == 0 then 0 else if n <= m then 1 else 1 + CeilDiv(n - m, m)
  }

  lemma {:induction false} CeilDivIsDivision(n: nat, m: nat)
    requires m > 0
    ensures CeilDiv(n, m) == (n + m - 1) / m
    decreases n
  {
    if n == 0 {
      DivUnique(m - 1, m, 0, m - 1);
    } else if n <= m {
      DivUnique(n + m - 1, m, 1, n - 1);
    } else {
      CeilDivIsDivision(n - m, m);
      DivStep(n + m - 1, m);
    }
  }

  lemma DivStep(x: int, m: int)
    requires m > 0 && x >= m
    ensures x / m == (x - m) / m + 1
  {
    var q, r := (x - m) / m, (x - m) % m;
    assert x == (q + 1) * m + r;
    DivUnique(x, m, q + 1, r);
  }

  /** Each window re-joined with single spaces. */
  function Rejoin(w: seq<seq<string>>): seq<string> {
    seq(|w|, i requires 0 <= i < |w| => Join(w[i], " "))
  }

  /** Re-joined windows of words split back into the same windows. */
  lemma ChunksOfWords(ws: seq<string>, m: nat)
    requires m > 0
    requires forall i | 0 <= i < |ws| :: IsWord(ws[i])
    ensures var r := Rejoin(Windows(ws, m));
            |r| == (|ws| + m - 1) / m
            && (forall i | 0 <= i < |r| :: 1 <= |Split(r[i])| <= m)
            && (forall i | 0 <= i < |r| - 1 :: |Split(r[i])| == m)
            && Flatten(seq(|r|, i requires 0 <= i < |r| => Split(r[i]))) == ws
  {
    var w := Windows(ws, m);
    var r := Rejoin(w);
    WindowsFlatten(ws, m);
    WindowsSizes(ws, m);
    WindowsMembers(ws, m);
    CeilDivIsDivision(|ws|, m);
    forall i | 0 <= i < |w| ensures Split(r[i]) == w[i] {
      WindowOfWords(ws, w[i]);
      assert r[i] == Join(w[i], " ");
      SplitJoin(w[i]);
    }
    assert seq(|r|, i requires 0 <= i < |r| => Split(r[i])) == w;
  }

  lemma WindowOfWords(ws: seq<string>, v: seq<string>)
    requires forall i | 0 <= i < |ws| :: IsWord(ws[i])
    requires forall x | x in v :: x in ws
    ensures forall j | 0 <= j < |v| :: IsWord(v[j])
  {
    forall j | 0 <= j < |v| ensures IsWord(v[j]) {
      assert v[j] in v;
      var k :| 0 <= k < |ws| && ws[k] == v[j];
    }
  }

  /** `chunk_text(text, max_words)`. */
  function ChunkText(text: string, maxWords: nat): (r: seq<string>)
    requires maxWords > 0
    ensures |r| == (|Split(text)| + maxWords - 1) / maxWords
    ensures forall i | 0 <= i < |r| :: 1 <= |Split(r[i])| <= maxWords
    ensures forall i | 0 <= i < |r| - 1 :: |Split(r[i])| == maxWords
    ensures Flatten(seq(|r|, i requires 0 <= i < |r| => Split(r[i]))) == Split(text)
  {
    ChunksOfWords(Split(text), maxWords);
    Rejoin(Windows(Split(text), maxWords))
  }

  /** Text with no word in it (empty or only whitespace) gives no chunk at all. */
  lemma BlankTextHasNoChunks(text: string, maxWords: nat)
    requires maxWords > 0
    ensures ChunkText(text, maxWords) == [] <==> AllSpace(text)
  {
    SplitBlank(text);
  }
}
