/**
 The handful of Python `str` operations the broker and the client rely on:
 `isspace`, `strip`, `split()` with no separator, `startswith`, ASCII
 `lower`, and `str(n)` for a non-negative integer.  Strings are `seq<char>`.
 */
module Text {

  /** Python's `str.isspace` for one character: the characters that
      `str.split()` and `str.strip()` treat as whitespace. */
  predicate IsSpace(c: char) {
    || ('\U{9}' <= c <= '\U{d}')
    || ('\U{1c}' <= c <= '\U{1f}')
    || c == ' '
    || c == '\U{85}'
    || c == '\U{a0}'
    || c == '\U{1680}'
    || ('\U{2000}' <= c <= '\U{200a}')
    || c == '\U{2028}'
    || c == '\U{2029}'
    || c == '\U{202f}'
    || c == '\U{205f}'
    || c == '\U{3000}'
  }

  /** A non-empty run of non-whitespace characters: what `split()` yields. */
  predicate IsToken(w: string) {
    w != [] && forall i :: 0 <= i < |w| ==> !IsSpace(w[i])
  }

  predicate StartsWith(s: string, prefix: string) {
    |prefix| <= |s| && s[..|prefix|] == prefix
  }

  /** The length of the longest whitespace prefix of `s`. */
  function LeadingSpace(s: string): (n: nat)
    ensures n <= |s|
    ensures forall i :: 0 <= i < n ==> IsSpace(s[i])
    ensures n < |s| ==> !IsSpace(s[n])
  {
    if s != [] && IsSpace(s[0]) then 1 + LeadingSpace(s[1..]) else 0
  }

  /** Where the whitespace run ending at `hi` starts, looking no further
      left than `lo`. */
  function TrailingSpace(s: string, lo: nat, hi: nat): (j: nat)
    requires lo <= hi <= |s|
    ensures lo <= j <= hi
    ensures forall i :: j <= i < hi ==> IsSpace(s[i])
    ensures lo < j ==> !IsSpace(s[j - 1])
    decreases hi
  {
    if lo < hi && IsSpace(s[hi - 1]) then TrailingSpace(s, lo, hi - 1) else hi
  }

  /** `s.lstrip()`. */
  function TrimLeft(s: string): string {
    s[LeadingSpace(s)..]
  }

  /** `r` is the slice of `s` starting at `k`, and everything of `s`
      outside that slice is whitespace. */
  predicate SliceAmidSpace(s: string, k: int, r: string) {
    && 0 <= k <= |s| - |r|
    && r == s[k..k + |r|]
    && (forall i :: 0 <= i < k ==> IsSpace(s[i]))
    && (forall i :: k + |r| <= i < |s| ==> IsSpace(s[i]))
  }

  /** Python's `s.strip()`: the slice of `s` left after removing whitespace
      from both ends. */
  function Strip(s: string): (r: string)
    ensures r == [] || (!IsSpace(r[0]) && !IsSpace(r[|r| - 1]))
    ensures exists k :: SliceAmidSpace(s, k, r)
  {
    var a := LeadingSpace(s);
    var b := TrailingSpace(s, a, |s|);
    assert SliceAmidSpace(s, a, s[a..b]);
    s[a..b]
  }

  /** The longest prefix of `s` without whitespace. */
  function TakeWord(s: string): (w: string)
    ensures |w| <= |s| && w == s[..|w|]
    ensures forall i :: 0 <= i < |w| ==> !IsSpace(w[i])
    ensures |w| < |s| ==> IsSpace(s[|w|])
  {
    if s == [] || IsSpace(s[0]) then [] else [s[0]] + TakeWord(s[1..])
  }

  /** Python's `s.split()` with no separator: the maximal whitespace-free
      runs of `s`, left to right. */
  function Split(s: string): (r: seq<string>)
    ensures forall i :: 0 <= i < |r| ==> IsToken(r[i])
    decreases |s|
  {
    var t := TrimLeft(s);
    if t == [] then []
    else
      var w := TakeWord(t);
      [w] + Split(t[|w|..])
  }

  /** `" ".join(ws)`. */
  function JoinSpace(ws: seq<string>): string {
    if |ws| == 0 then ""
    else if |ws| == 1 then ws[0]
    else ws[0] + " " + JoinSpace(ws[1..])
  }

  /** `s` with every whitespace character deleted. */
  function NonSpace(s: string): string {
    if s == [] then []
    else (if IsSpace(s[0]) then [] else [s[0]]) + NonSpace(s[1..])
  }

  /** The concatenation of a sequence of pieces, in order. */
  function Concat<T>(ws: seq<seq<T>>): seq<T> {
    if ws == [] then [] else ws[0] + Concat(ws[1..])
  }

  function LowerChar(c: char): char {
    if 'A' <= c <= 'Z' then (c as int - 'A' as int + 'a' as int) as char else c
  }

  /** `s.lower()` restricted to ASCII letters. */
  function Lower(s: string): (r: string)
    ensures |r| == |s|
    ensures forall i :: 0 <= i < |s| ==> r[i] == LowerChar(s[i])
  {
    if s == [] then [] else [LowerChar(s[0])] + Lower(s[1..])
  }

  predicate IsDigit(c: char) {
    '0' <= c <= '9'
  }

  /** `str(n)` for a non-negative integer: decimal, no leading zero. */
  function DecimalText(n: nat): (s: string)
    ensures s != [] && forall i :: 0 <= i < |s| ==> IsDigit(s[i])
    ensures s[0] == '0' ==> n == 0
  {
    if n < 10 then ["0123456789"[n]]
    else DecimalText(n / 10) + ["0123456789"[n % 10]]
  }

  /** The value of a run of decimal digits, as `int(s)` reads it. */
  function DecimalValue(s: string): nat
    requires forall i :: 0 <= i < |s| ==> IsDigit(s[i])
  {
    if s == [] then 0
    else
      assert IsDigit(s[|s| - 1]);
      DecimalValue(s[..|s| - 1]) * 10 + (s[|s| - 1] as int - '0' as int)
  }

  // ---------------------------------------------------------------- lemmas

  /** `int(str(n)) == n`. */
  lemma {:induction false} DecimalRoundTrip(n: nat)
    ensures DecimalValue(DecimalText(n)) == n
  {
    var s := DecimalText(n);
    if n >= 10 {
      DecimalRoundTrip(n / 10);
      assert s[..|s| - 1] == DecimalText(n / 10);
    }
  }

  /** The decimal text of a number is one `split()` token. */
  lemma DecimalIsToken(n: nat)
    ensures IsToken(DecimalText(n))
  {
    var s := DecimalText(n);
    forall i | 0 <= i < |s| ensures !IsSpace(s[i]) {
      assert IsDigit(s[i]);
    }
  }

  lemma {:induction false} TakeWordOfToken(w: string, rest: string)
    requires forall i :: 0 <= i < |w| ==> !IsSpace(w[i])
    requires rest == [] || IsSpace(rest[0])
    ensures TakeWord(w + rest) == w
  {
    if w != [] {
      assert (w + rest)[0] == w[0];
      assert (w + rest)[1..] == w[1..] + rest;
      TakeWordOfToken(w[1..], rest);
    } else {
      assert w + rest == rest;
    }
  }

  lemma SplitAtWord(s: string)
    requires s != [] && !IsSpace(s[0])
    ensures Split(s) == [TakeWord(s)] + Split(s[|TakeWord(s)|..])
  {
    assert TrimLeft(s) == s;
  }

  lemma SplitAtSpace(s: string)
    requires s != [] && IsSpace(s[0])
    ensures Split(s) == Split(s[1..])
  {
    assert TrimLeft(s) == TrimLeft(s[1..]);
  }

  /** Splitting `w + " " + rest` peels off the token `w`. */
  lemma SplitCons(w: string, rest: string)
    requires IsToken(w)
    ensures Split(w + " " + rest) == [w] + Split(rest)
  {
    var s := w + (" " + rest);
    assert s == w + " " + rest;
    assert s[0] == w[0];
    SplitAtWord(s);
    TakeWordOfToken(w, " " + rest);
    assert s[|w|..] == " " + rest;
    SplitAtSpace(" " + rest);
    assert (" " + rest)[1..] == rest;
  }

  lemma SplitToken(w: string)
    requires IsToken(w)
    ensures Split(w) == [w]
  {
    TakeWordOfToken(w, []);
    assert w + [] == w;
    assert w[|w|..] == [];
  }

  /** `" ".join(ws).split() == ws` for whitespace-free, non-empty tokens. */
  lemma {:induction false} SplitJoin(ws: seq<string>)
    requires forall i :: 0 <= i < |ws| ==> IsToken(ws[i])
    ensures Split(JoinSpace(ws)) == ws
  {
    if |ws| == 1 {
      SplitToken(ws[0]);
    } else if |ws| > 1 {
      SplitJoin(ws[1..]);
      SplitCons(ws[0], JoinSpace(ws[1..]));
    }
  }

  lemma {:induction false} ConcatSnoc<T>(ws: seq<seq<T>>, w: seq<T>)
    ensures Concat(ws + [w]) == Concat(ws) + w
  {
    if ws == [] {
      assert ws + [w] == [w];
    } else {
      assert (ws + [w])[1..] == ws[1..] + [w];
      ConcatSnoc(ws[1..], w);
    }
  }

  lemma {:induction false} NonSpaceAppend(a: string, b: string)
    ensures NonSpace(a + b) == NonSpace(a) + NonSpace(b)
  {
    if a == [] {
      assert a + b == b;
    } else {
      assert (a + b)[1..] == a[1..] + b;
      NonSpaceAppend(a[1..], b);
    }
  }

  lemma {:induction false} NonSpaceOfWord(w: string)
    requires forall i :: 0 <= i < |w| ==> !IsSpace(w[i])
    ensures NonSpace(w) == w
  {
    if w != [] {
      NonSpaceOfWord(w[1..]);
      assert w == [w[0]] + w[1..];
    }
  }

  /** Whitespace in front of a string changes nothing for `split()`. */
  lemma {:induction false} SplitSkipsLeadingSpace(sp: string, s: string)
    requires forall i :: 0 <= i < |sp| ==> IsSpace(sp[i])
    ensures Split(sp + s) == Split(s)
  {
    if sp == [] {
      assert sp + s == s;
    } else {
      SplitAtSpace(sp + s);
      assert (sp + s)[1..] == sp[1..] + s;
      SplitSkipsLeadingSpace(sp[1..], s);
    }
  }

  /** Whitespace after a string changes nothing for `split()`. */
  lemma {:induction false} SplitIgnoresTrailingSpace(s: string, sp: string)
    requires forall i :: 0 <= i < |sp| ==> IsSpace(sp[i])
    ensures Split(s + sp) == Split(s)
    decreases |s|
  {
    if s == [] {
      assert s + sp == sp + [];
      SplitSkipsLeadingSpace(sp, []);
    } else if IsSpace(s[0]) {
      SplitIgnoresTrailingSpace(s[1..], sp);
      SpaceBeforeTail(s, sp);
      SplitAtSpace(s);
    } else {
      SplitIgnoresTrailingSpace(s[|TakeWord(s)|..], sp);
      TrailWordStep(s, sp);
    }
  }

  lemma TrailWordStep(s: string, sp: string)
    requires s != [] && !IsSpace(s[0])
    requires sp == [] || IsSpace(sp[0])
    requires var rest := s[|TakeWord(s)|..];
             Split(rest + sp) == Split(rest)
    ensures Split(s + sp) == Split(s)
  {
    WordBeforeTail(s, sp);
    SplitAtWord(s + sp);
    SplitAtWord(s);
  }

  /** The first word of `s` is also the first word of `s + sp`. */
  lemma WordBeforeTail(s: string, sp: string)
    requires s != [] && !IsSpace(s[0])
    requires sp == [] || IsSpace(sp[0])
    ensures var w := TakeWord(s);
            && TakeWord(s + sp) == w
            && (s + sp)[|w|..] == s[|w|..] + sp
  {
    var w := TakeWord(s);
    var rest := s[|w|..];
    assert rest == [] || IsSpace(rest[0]);
    HeadOfAppend(rest, sp);
    Assoc(w, rest, sp);
    assert s == w + rest;
    TakeWordOfToken(w, rest + sp);
    DropPrefix(w, rest + sp);
  }

  /** A string whose head is whitespace, followed by another such string,
      still starts with whitespace. */
  lemma HeadOfAppend(a: string, b: string)
    requires a == [] || IsSpace(a[0])
    requires b == [] || IsSpace(b[0])
    ensures a + b == [] || IsSpace((a + b)[0])
  {
    if a == [] {
      assert a + b == b;
    }
  }

  lemma DropPrefix<T>(a: seq<T>, b: seq<T>)
    ensures (a + b)[|a|..] == b
  {
  }

  /** The tokens of `split()` cover every non-whitespace character of `s`
      exactly once and in order. */
  lemma {:induction false} SplitCoversNonSpace(s: string)
    ensures Concat(Split(s)) == NonSpace(s)
    decreases |s|
  {
    if s == [] {
    } else if IsSpace(s[0]) {
      SplitAtSpace(s);
      SplitCoversNonSpace(s[1..]);
    } else {
      SplitCoversNonSpace(s[|TakeWord(s)|..]);
      CoverWordStep(s);
    }
  }

  lemma CoverWordStep(s: string)
    requires s != [] && !IsSpace(s[0])
    requires var rest := s[|TakeWord(s)|..];
             Concat(Split(rest)) == NonSpace(rest)
    ensures Concat(Split(s)) == NonSpace(s)
  {
    var w := TakeWord(s);
    var rest := s[|w|..];
    assert s == w + rest;
    calc {
      Concat(Split(s));
      { SplitAtWord(s); }
      Concat([w] + Split(rest));
      { ConcatCons(w, Split(rest)); }
      w + NonSpace(rest);
      { NonSpaceOfWord(w); }
      NonSpace(w) + NonSpace(rest);
      { NonSpaceAppend(w, rest); }
      NonSpace(s);
    }
  }

  lemma ConcatCons<T>(w: seq<T>, ws: seq<seq<T>>)
    ensures Concat([w] + ws) == w + Concat(ws)
  {
    assert ([w] + ws)[0] == w;
    assert ([w] + ws)[1..] == ws;
  }

  /** `split()` is maximal: any run of whitespace separates the tokens on
      its left from those on its right, and none spans it. */
  lemma {:induction false} SplitGap(a: string, sp: string, b: string)
    requires sp != [] && forall i :: 0 <= i < |sp| ==> IsSpace(sp[i])
    ensures Split(a + sp + b) == Split(a) + Split(b)
    decreases |a|
  {
    if a == [] {
      assert a + sp + b == sp + b;
      SplitSkipsLeadingSpace(sp, b);
    } else if IsSpace(a[0]) {
      SplitGap(a[1..], sp, b);
      GapSpaceStep(a, sp, b);
    } else {
      var w := TakeWord(a);
      SplitGap(a[|w|..], sp, b);
      GapWordStep(a, sp, b);
    }
  }

  lemma GapSpaceStep(a: string, sp: string, b: string)
    requires a != [] && IsSpace(a[0])
    requires Split(a[1..] + sp + b) == Split(a[1..]) + Split(b)
    ensures Split(a + sp + b) == Split(a) + Split(b)
  {
    Assoc(a, sp, b);
    Assoc(a[1..], sp, b);
    SpaceBeforeTail(a, sp + b);
    SplitAtSpace(a);
  }

  /** A leading whitespace character of `a` is skipped whatever follows. */
  lemma SpaceBeforeTail(a: string, t: string)
    requires a != [] && IsSpace(a[0])
    ensures Split(a + t) == Split(a[1..] + t)
  {
    assert (a + t)[0] == a[0];
    assert (a + t)[1..] == a[1..] + t;
    SplitAtSpace(a + t);
  }

  lemma GapWordStep(a: string, sp: string, b: string)
    requires a != [] && !IsSpace(a[0])
    requires sp != [] && forall i :: 0 <= i < |sp| ==> IsSpace(sp[i])
    requires var rest := a[|TakeWord(a)|..];
             Split(rest + sp + b) == Split(rest) + Split(b)
    ensures Split(a + sp + b) == Split(a) + Split(b)
  {
    var w := TakeWord(a);
    var rest := a[|w|..];
    WordBeforeGap(a, sp, b);
    SplitAtWord(a + sp + b);
    SplitAtWord(a);
    Assoc([w], Split(rest), Split(b));
  }

  /** The first word of `a` is also the first word of `a + sp + b`. */
  lemma WordBeforeGap(a: string, sp: string, b: string)
    requires a != [] && !IsSpace(a[0])
    requires sp != [] && IsSpace(sp[0])
    ensures var w := TakeWord(a);
            && TakeWord(a + sp + b) == w
            && (a + sp + b)[|w|..] == a[|w|..] + sp + b
  {
    var w := TakeWord(a);
    var rest := a[|w|..];
    var tail := rest + sp + b;
    var s := a + sp + b;
    assert s == w + tail by {
      assert a == w + rest;
    }
    assert tail[0] == if rest != [] then rest[0] else sp[0];
    TakeWordOfToken(w, tail);
    assert s[|w|..] == tail;
  }

  /** Tokens are maximal: a whitespace-free run followed by whitespace is
      one token, neither cut short nor joined to what follows. */
  lemma SplitPeelsToken(w: string, sp: string, b: string)
    requires IsToken(w)
    requires sp != [] && forall i :: 0 <= i < |sp| ==> IsSpace(sp[i])
    ensures Split(w + sp + b) == [w] + Split(b)
  {
    SplitGap(w, sp, b);
    SplitToken(w);
  }

  lemma Assoc<T>(a: seq<T>, b: seq<T>, c: seq<T>)
    ensures a + (b + c) == (a + b) + c
  {
  }

  lemma {:induction false} SplitDropsSpacePrefix(s: string, a: nat)
    requires a <= |s| && forall i :: 0 <= i < a ==> IsSpace(s[i])
    ensures Split(s[a..]) == Split(s)
  {
    if a == 0 {
      assert s[a..] == s;
    } else {
      SplitAtSpace(s);
      SplitDropsSpacePrefix(s[1..], a - 1);
      assert s[1..][a - 1..] == s[a..];
    }
  }

  lemma SpaceTail(s: string, b: nat)
    requires b <= |s| && forall i :: b <= i < |s| ==> IsSpace(s[i])
    ensures forall i :: 0 <= i < |s[b..]| ==> IsSpace(s[b..][i])
  {
    forall i | 0 <= i < |s[b..]| ensures IsSpace(s[b..][i]) {
      assert s[b..][i] == s[b + i];
    }
  }

  lemma SplitDropsSpaceSuffix(s: string, b: nat)
    requires b <= |s| && forall i :: b <= i < |s| ==> IsSpace(s[i])
    ensures Split(s[..b]) == Split(s)
  {
    SpaceTail(s, b);
    SplitIgnoresTrailingSpace(s[..b], s[b..]);
    assert s[..b] + s[b..] == s;
  }

  /** Stripping before splitting makes no difference. */
  lemma SplitStrip(s: string)
    ensures Split(Strip(s)) == Split(s)
  {
    var a := LeadingSpace(s);
    var b := TrailingSpace(s, a, |s|);
    SplitDropsSpaceSuffix(s, b);
    SplitDropsSpacePrefix(s[..b], a);
    assert s[..b][a..] == s[a..b] == Strip(s);
  }

  /** A whitespace-free prefix survives `strip()`. */
  lemma StripKeepsPrefix(s: string, prefix: string)
    requires StartsWith(s, prefix)
    requires IsToken(prefix)
    ensures StartsWith(Strip(s), prefix)
  {
    assert s[0] == prefix[0];
    var b := TrailingSpace(s, 0, |s|);
    assert s[|prefix| - 1] == prefix[|prefix| - 1];
    assert |prefix| <= b;
    assert Strip(s) == s[..b];
    assert s[..b][..|prefix|] == s[..|prefix|];
  }

  /** A string with no whitespace at either end is its own `strip()`. */
  lemma StripUnchanged(s: string)
    requires s == [] || (!IsSpace(s[0]) && !IsSpace(s[|s| - 1]))
    ensures Strip(s) == s
  {
    assert s[0..|s|] == s;
  }
}
