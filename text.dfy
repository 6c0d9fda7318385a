/** The handful of Python string operations the parsers rely on:
    `str.split()`, `' '.join(...)`, `str.replace('NT', '')`,
    `str.startswith`, `str.lower()` and the ordering `<=` on `str`.
    Characters are treated as ASCII where Python consults Unicode tables. */
module Text {

  /** `str.isspace()` on the ASCII range: space, \t, \n, \v, \f, \r and the
      four separator controls 0x1C-0x1F. */
  predicate IsSpace(c: char) {
    c == ' ' || c == '\t' || c == '\n' || c == '\r' || c == '\U{B}' || c == '\U{C}'
    || ('\U{1C}' <= c <= '\U{1F}')
  }

  /** A token as `str.split()` produces it: non-empty, without whitespace. */
  predicate IsWord(w: string) {
    |w| > 0 && forall i :: 0 <= i < |w| ==> !IsSpace(w[i])
  }

  predicate AllWords(ts: seq<string>) {
    forall i :: 0 <= i < |ts| ==> IsWord(ts[i])
  }

  /** The longest prefix of `s` that holds no whitespace. */
  function TakeWord(s: string): (w: string)
    ensures |w| <= |s| && w == s[..|w|]
    ensures forall i :: 0 <= i < |w| ==> !IsSpace(w[i])
    ensures |w| < |s| ==> IsSpace(s[|w|])
  {
    if s == [] || IsSpace(s[0]) then [] else [s[0]] + TakeWord(s[1..])
  }

  /** `s.split()`: the maximal runs of non-whitespace characters, in order;
      leading, trailing and repeated whitespace produce no empty tokens. */
  function Split(s: string): (ts: seq<string>)
    ensures AllWords(ts)
    decreases |s|
  {
    if s == [] then []
    else if IsSpace(s[0]) then Split(s[1..])
    else
      var w := TakeWord(s);
      [w] + Split(s[|w|..])
  }

  /** `' '.join(ts)`. */
  function Join(ts: seq<string>): (r: string)
    ensures |ts| > 0 ==> |r| == |Concat(ts)| + |ts| - 1
  {
    if |ts| == 0 then ""
    else if |ts| == 1 then ts[0]
    else ts[0] + " " + Join(ts[1..])
  }

  /** The non-whitespace characters of `s`, in order. */
  function NonSpace(s: string): string {
    if s == [] then []
    else (if IsSpace(s[0]) then [] else [s[0]]) + NonSpace(s[1..])
  }

  function Concat(ts: seq<string>): string {
    if ts == [] then [] else ts[0] + Concat(ts[1..])
  }

  lemma {:induction false} NonSpaceAppend(a: string, b: string)
    ensures NonSpace(a + b) == NonSpace(a) + NonSpace(b)
  {
    if a == [] {
      assert a + b == b;
    } else {
      assert (a + b)[1..] == a[1..] + b;
      NonSpaceAppend(a[1..], b);
    }
  }

  lemma {:induction false} NonSpaceOfSpaceless(w: string)
    requires forall i :: 0 <= i < |w| ==> !IsSpace(w[i])
    ensures NonSpace(w) == w
  {
    if w != [] {
      NonSpaceOfSpaceless(w[1..]);
    }
  }

  /** Splitting loses exactly the whitespace: the tokens, glued back together,
      are the non-whitespace characters of the input. */
  lemma {:induction false} SplitKeepsNonSpace(s: string)
    ensures Concat(Split(s)) == NonSpace(s)
    decreases |s|
  {
    if s == [] {
    } else if IsSpace(s[0]) {
      SplitKeepsNonSpace(s[1..]);
    } else {
      var w := TakeWord(s);
      SplitKeepsNonSpace(s[|w|..]);
      assert s == w + s[|w|..];
      NonSpaceAppend(w, s[|w|..]);
      NonSpaceOfSpaceless(w);
      assert Split(s)[1..] == Split(s[|w|..]);
    }
  }

  lemma {:induction false} TakeWordOfWord(w: string, rest: string)
    requires forall i :: 0 <= i < |w| ==> !IsSpace(w[i])
    requires rest == [] || IsSpace(rest[0])
    ensures TakeWord(w + rest) == w
  {
    if w == [] {
      assert w + rest == rest;
    } else {
      assert (w + rest)[1..] == w[1..] + rest;
      TakeWordOfWord(w[1..], rest);
    }
  }

  /** Splitting a single-space-joined line of tokens gives the tokens back. */
  lemma {:induction false} SplitJoin(ts: seq<string>)
    requires AllWords(ts)
    ensures Split(Join(ts)) == ts
  {
    if |ts| == 0 {
    } else if |ts| == 1 {
      var w := ts[0];
      TakeWordOfWord(w, []);
      assert w + [] == w;
      assert w[|w|..] == [];
    } else {
      var w := ts[0];
      var tail := Join(ts[1..]);
      var s := w + " " + tail;
      assert s == w + (" " + tail);
      TakeWordOfWord(w, " " + tail);
      assert s[|w|..] == " " + tail;
      assert (" " + tail)[1..] == tail;
      SplitJoin(ts[1..]);
      assert Split(s) == [w] + Split(" " + tail);
      assert Split(" " + tail) == Split(tail);
      assert ts == [w] + ts[1..];
    }
  }

  predicate AllSpace(ws: string) {
    forall i :: 0 <= i < |ws| ==> IsSpace(ws[i])
  }

  /** Leading whitespace, however long, yields no token. */
  lemma {:induction false} SplitSkipsSpace(ws: string, s: string)
    requires AllSpace(ws)
    ensures Split(ws + s) == Split(s)
  {
    if ws == [] {
      assert ws + s == s;
    } else {
      assert (ws + s)[0] == ws[0];
      assert (ws + s)[1..] == ws[1..] + s;
      SplitSkipsSpace(ws[1..], s);
    }
  }

  /** A word followed by whitespace (or by nothing) is one token. */
  lemma SplitWord(w: string, rest: string)
    requires IsWord(w)
    requires rest == [] || IsSpace(rest[0])
    ensures Split(w + rest) == [w] + Split(rest)
  {
    TakeWordOfWord(w, rest);
    assert (w + rest)[0] == w[0];
    assert (w + rest)[|w|..] == rest;
  }

  /** Tokens laid out as a column-padded line: each gap is a non-empty run
      of whitespace. */
  function Padded(ts: seq<string>, gaps: seq<string>): string
    requires |ts| <= |gaps| + 1
  {
    if |ts| == 0 then ""
    else if |ts| == 1 then ts[0]
    else ts[0] + gaps[0] + Padded(ts[1..], gaps[1..])
  }

  predicate Gaps(gaps: seq<string>) {
    forall i :: 0 <= i < |gaps| ==> |gaps[i]| > 0 && AllSpace(gaps[i])
  }

  lemma {:induction false} SplitPaddedTail(ts: seq<string>, gaps: seq<string>, trail: string)
    requires AllWords(ts) && |ts| <= |gaps| + 1 && Gaps(gaps)
    requires AllSpace(trail)
    ensures Split(Padded(ts, gaps) + trail) == ts
  {
    if |ts| == 0 {
      SplitSkipsSpace(trail, []);
      assert Padded(ts, gaps) + trail == trail + [];
    } else if |ts| == 1 {
      SplitWord(ts[0], trail);
      SplitSkipsSpace(trail, []);
      assert trail + [] == trail;
    } else {
      var g, tail := gaps[0], Padded(ts[1..], gaps[1..]);
      assert Padded(ts, gaps) + trail == ts[0] + (g + (tail + trail));
      SplitGap(ts[0], g, tail + trail);
      SplitPaddedTail(ts[1..], gaps[1..], trail);
      assert ts == [ts[0]] + ts[1..];
    }
  }

  /** A word, then a non-empty run of whitespace: one token. */
  lemma SplitGap(w: string, g: string, rest: string)
    requires IsWord(w) && |g| > 0 && AllSpace(g)
    ensures Split(w + (g + rest)) == [w] + Split(rest)
  {
    assert (g + rest)[0] == g[0];
    SplitWord(w, g + rest);
    SplitSkipsSpace(g, rest);
  }

  /** `line.split()` on a padded line recovers its tokens, whatever the
      widths of the gaps and of the leading and trailing whitespace. */
  lemma SplitPadded(lead: string, ts: seq<string>, gaps: seq<string>, trail: string)
    requires AllWords(ts) && |ts| <= |gaps| + 1 && Gaps(gaps)
    requires AllSpace(lead) && AllSpace(trail)
    ensures Split(lead + Padded(ts, gaps) + trail) == ts
  {
    assert lead + Padded(ts, gaps) + trail == lead + (Padded(ts, gaps) + trail);
    SplitSkipsSpace(lead, Padded(ts, gaps) + trail);
    SplitPaddedTail(ts, gaps, trail);
  }

  /** Joining two non-empty groups of tokens puts one space between them. */
  lemma {:induction false} JoinAppend(a: seq<string>, b: seq<string>)
    requires |a| > 0 && |b| > 0
    ensures Join(a + b) == Join(a) + " " + Join(b)
  {
    if |a| > 1 {
      JoinAppend(a[1..], b);
      assert (a + b)[1..] == a[1..] + b;
    } else {
      assert (a + b)[1..] == b;
    }
  }

  predicate ContainsNT(s: string) {
    exists i :: 0 <= i < |s| - 1 && s[i] == 'N' && s[i + 1] == 'T'
  }

  /** `s.replace('NT', '')`: one left-to-right pass removing non-overlapping
      occurrences of "NT". */
  function StripNT(s: string): (r: string)
    ensures |r| <= |s|
  {
    if |s| < 2 then s
    else if s[0] == 'N' && s[1] == 'T' then StripNT(s[2..])
    else [s[0]] + StripNT(s[1..])
  }

  function Count(s: string, c: char): nat {
    if s == [] then 0 else (if s[0] == c then 1 else 0) + Count(s[1..], c)
  }

  /** A string without "NT" passes through unchanged. */
  lemma {:induction false} StripNTIdentity(s: string)
    requires !ContainsNT(s)
    ensures StripNT(s) == s
  {
    if |s| >= 2 {
      assert !(s[0] == 'N' && s[1] == 'T');
      assert forall j :: 0 <= j < |s| - 1 ==> s[1..][j] == s[j + 1];
      StripNTIdentity(s[1..]);
    }
  }

  /** Stripping removes "N"/"T" pairs and nothing else: every other character
      keeps its count, and as many N's as T's disappear. */
  lemma {:induction false} StripNTRemovesPairs(s: string, c: char)
    ensures (|s| - |StripNT(s)|) % 2 == 0
    ensures Count(s, 'N') - Count(StripNT(s), 'N') == (|s| - |StripNT(s)|) / 2
    ensures Count(s, 'T') - Count(StripNT(s), 'T') == (|s| - |StripNT(s)|) / 2
    ensures c != 'N' && c != 'T' ==> Count(StripNT(s), c) == Count(s, c)
  {
    if |s| < 2 {
    } else if s[0] == 'N' && s[1] == 'T' {
      StripNTRemovesPairs(s[2..], c);
      assert s[1..][1..] == s[2..];
    } else {
      StripNTRemovesPairs(s[1..], c);
    }
  }

  /** Stripping works piecewise when no "NT" straddles the seam. */
  lemma {:induction false} StripNTAppend(a: string, b: string)
    requires !(|a| > 0 && |b| > 0 && a[|a| - 1] == 'N' && b[0] == 'T')
    ensures StripNT(a + b) == StripNT(a) + StripNT(b)
  {
    var ab := a + b;
    if a == [] {
      assert ab == b;
    } else if |a| == 1 {
      if b != [] {
        assert ab[0] == a[0] && ab[1] == b[0] && ab[1..] == b;
        assert StripNT(ab) == [a[0]] + StripNT(b);
      } else {
        assert ab == a;
      }
    } else if a[0] == 'N' && a[1] == 'T' {
      assert ab[0] == 'N' && ab[1] == 'T';
      assert ab[2..] == a[2..] + b;
      StripNTAppend(a[2..], b);
      assert StripNT(ab) == StripNT(ab[2..]);
    } else {
      assert ab[0] == a[0] && ab[1] == a[1];
      assert ab[1..] == a[1..] + b;
      StripNTAppend(a[1..], b);
      assert StripNT(ab) == [a[0]] + StripNT(ab[1..]);
    }
  }

  /** The pass is not idempotent: "NNTT" becomes "NT", which becomes "". */
  lemma StripNTNotIdempotent()
    ensures StripNT("NNTT") == "NT"
    ensures StripNT(StripNT("NNTT")) == ""
  {
    assert "NNTT"[1..] == "NTT";
    assert "NTT"[2..] == "T";
  }

  /** `s.startswith(p)`. */
  predicate StartsWith(s: string, p: string): (b: bool)
    ensures b <==> |p| <= |s| && s == p + s[|p|..]
  {
    |p| <= |s| && s[..|p|] == p
  }

  /** A prefix without spaces that starts `w + " " + rest` already starts `w`. */
  lemma StartsWithinWord(w: string, rest: string, p: string)
    requires forall k :: 0 <= k < |p| ==> p[k] != ' '
    requires StartsWith(w + " " + rest, p)
    ensures StartsWith(w, p)
  {
    var s := w + " " + rest;
    assert |p| <= |w| by {
      assert s[|w|] == ' ';
      assert forall k :: 0 <= k < |p| ==> p[k] == s[k];
    }
    assert s[..|p|] == w[..|p|];
  }

  /** `str.lower()` on ASCII letters; every other character is kept. */
  function LowerChar(c: char): char {
    if 'A' <= c <= 'Z' then (c as int + 32) as char else c
  }

  function Lower(s: string): (r: string)
    ensures |r| == |s|
    ensures forall i :: 0 <= i < |s| ==> r[i] == LowerChar(s[i])
  {
    seq(|s|, i requires 0 <= i < |s| => LowerChar(s[i]))
  }

  lemma LowerAgrees(a: string, b: string)
    requires |a| == |b|
    requires forall k :: 0 <= k < |a| ==> LowerChar(a[k]) == LowerChar(b[k])
    ensures Lower(a) == Lower(b)
  {
    assert forall k :: 0 <= k < |a| ==> Lower(a)[k] == Lower(b)[k];
  }

  /** Python's `a <= b` on strings: lexicographic by code point, a proper
      prefix coming first. (Dafny's own `<` on sequences means "proper prefix".) */
  predicate LexLe(a: string, b: string) {
    |a| == 0 || (|b| > 0 && (a[0] < b[0] || (a[0] == b[0] && LexLe(a[1..], b[1..]))))
  }

  lemma {:induction false} LexLeReflexive(a: string)
    ensures LexLe(a, a)
  {
    if |a| > 0 {
      LexLeReflexive(a[1..]);
    }
  }

  lemma {:induction false} LexLeTotal(a: string, b: string)
    ensures LexLe(a, b) || LexLe(b, a)
  {
    if |a| > 0 && |b| > 0 && a[0] == b[0] {
      LexLeTotal(a[1..], b[1..]);
    }
  }

  lemma {:induction false} LexLeTransitive(a: string, b: string, c: string)
    requires LexLe(a, b) && LexLe(b, c)
    ensures LexLe(a, c)
  {
    if |a| > 0 && a[0] == b[0] && b[0] == c[0] {
      LexLeTransitive(a[1..], b[1..], c[1..]);
    }
  }

  lemma {:induction false} LexLeAntisymmetric(a: string, b: string)
    requires LexLe(a, b) && LexLe(b, a)
    ensures a == b
  {
    if |a| > 0 {
      LexLeAntisymmetric(a[1..], b[1..]);
      assert a == [a[0]] + a[1..] && b == [b[0]] + b[1..];
    }
  }
}
