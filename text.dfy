/**
 * The Python `str` operations the note processor relies on, over
 * `string` (a sequence of Unicode characters).
 */
module Text {
  import opened Wrappers

  /** Python's `str.isspace()` for one character (the Unicode whitespace set). */
  predicate IsSpace(c: char) {
    || c == ' '
    || ('\t' <= c <= '\r')
    || ('\U{1C}' <= c <= '\U{1F}')
    || c == '\U{85}' || c == '\U{A0}' || c == '\U{1680}'
    || ('\U{2000}' <= c <= '\U{200A}')
    || c == '\U{2028}' || c == '\U{2029}' || c == '\U{202F}'
    || c == '\U{205F}' || c == '\U{3000}'
  }

  /** The regular-expression class `\d`, over ASCII digits. */
  predicate IsDigit(c: char) { '0' <= c <= '9' }

  predicate IsAsciiLetter(c: char) { ('a' <= c <= 'z') || ('A' <= c <= 'Z') }

  predicate StartsWith(s: string, p: string) {
    |p| <= |s| && s[..|p|] == p
  }

  predicate EndsWith(s: string, p: string) {
    |p| <= |s| && s[|s| - |p|..] == p
  }

  /** `p` occurs in `s` at position `i`. */
  predicate OccursAt(s: string, p: string, i: int) {
    0 <= i && i + |p| <= |s| && s[i..i + |p|] == p
  }

  /** Concatenation is associative; stated once so that long chains of
      appends need not be re-associated by the solver. */
  lemma AppendAssoc<T>(a: seq<T>, b: seq<T>, c: seq<T>)
    ensures (a + b) + c == a + (b + c)
  {
  }

  /** A concatenation starts with its first part and ends with its last. */
  lemma Framed<T>(a: seq<T>, b: seq<T>, c: seq<T>)
    ensures |a| <= |a + b + c| && (a + b + c)[..|a|] == a
    ensures |c| <= |a + b + c| && (a + b + c)[|a + b + c| - |c|..] == c
  {
    var s := a + b + c;
    assert s == a + (b + c);
  }

  /** A prefix of a prefix is a prefix. */
  lemma PrefixOfPrefix<T>(a: seq<T>, b: seq<T>, c: seq<T>)
    requires |a| <= |b| <= |c| && b[..|a|] == a && c[..|b|] == b
    ensures c[..|a|] == a
  {
    assert c[..|a|] == c[..|b|][..|a|];
  }

  /** Python's `p in s`. */
  predicate Contains(s: string, p: string) {
    exists i | 0 <= i <= |s| :: OccursAt(s, p, i)
  }

  /** Occurrences in the tail of `s` are occurrences in `s`, one position later. */
  lemma OccursInTail(s: string, p: string)
    requires |s| > 0
    ensures forall k :: k >= 0 ==> (OccursAt(s[1..], p, k) <==> OccursAt(s, p, k + 1))
  {
    forall k | k >= 0 ensures OccursAt(s[1..], p, k) <==> OccursAt(s, p, k + 1) {
      if 0 <= k && k + |p| <= |s| - 1 {
        assert s[1..][k..k + |p|] == s[k + 1..k + 1 + |p|];
      }
    }
  }

  /** Python's `s.find(p)`: the first position of `p` in `s`, or -1. */
  function Find(s: string, p: string): (r: int)
    ensures -1 <= r <= |s|
    ensures r >= 0 ==> OccursAt(s, p, r)
    ensures r >= 0 ==> forall k :: 0 <= k < r ==> !OccursAt(s, p, k)
    ensures r == -1 <==> !Contains(s, p)
    decreases |s|
  {
    if StartsWith(s, p) then
      assert s[0..|p|] == s[..|p|];
      assert OccursAt(s, p, 0);
      0
    else if |s| == 0 then -1
    else
      var r := Find(s[1..], p);
      FindStep(s, p, r);
      if r == -1 then -1 else r + 1
  }

  /** One step of `Find`: a search that fails at the head continues in the tail. */
  lemma FindStep(s: string, p: string, r: int)
    requires |s| > 0 && !StartsWith(s, p) && -1 <= r
    requires r == -1 ==> !Contains(s[1..], p)
    requires r >= 0 ==> OccursAt(s[1..], p, r) && forall k :: 0 <= k < r ==> !OccursAt(s[1..], p, k)
    ensures r == -1 ==> !Contains(s, p)
    ensures r >= 0 ==> OccursAt(s, p, r + 1) && forall k :: 0 <= k < r + 1 ==> !OccursAt(s, p, k)
  {
    OccursInTail(s, p);
    assert !OccursAt(s, p, 0);
    if r == -1 {
      forall k | 0 < k <= |s| ensures !OccursAt(s, p, k) {
        assert !OccursAt(s[1..], p, k - 1);
      }
    } else {
      forall k | 0 < k < r + 1 ensures !OccursAt(s, p, k) {
        assert !OccursAt(s[1..], p, k - 1);
      }
    }
  }

  /** Python's `s.rfind(c)` for one character. */
  function RFindChar(s: string, c: char): (r: int)
    ensures -1 <= r < |s|
    ensures r >= 0 ==> s[r] == c && c !in s[r + 1..]
    ensures r == -1 <==> c !in s
    decreases |s|
  {
    if |s| == 0 then -1
    else if s[|s| - 1] == c then |s| - 1
    else
      assert s == s[..|s| - 1] + [s[|s| - 1]];
      RFindChar(s[..|s| - 1], c)
  }

  /** The last occurrence of `c` is the one with no `c` after it. */
  lemma {:induction false} RFindCharAt(s: string, c: char, i: int)
    requires 0 <= i < |s| && s[i] == c && c !in s[i + 1..]
    ensures RFindChar(s, c) == i
    decreases |s|
  {
    if i < |s| - 1 {
      var init := s[..|s| - 1];
      assert s[|s| - 1] == s[i + 1..][|s| - 2 - i];
      assert init[i + 1..] == s[i + 1..][..|s| - 2 - i];
      RFindCharAt(init, c, i);
    }
  }

  /** Python's `s.find(c)` for one character. */
  function FindChar(s: string, c: char): (r: int)
    ensures -1 <= r < |s|
    ensures r >= 0 ==> s[r] == c && c !in s[..r]
    ensures r == -1 <==> c !in s
    decreases |s|
  {
    if |s| == 0 then -1
    else if s[0] == c then 0
    else
      var r := FindChar(s[1..], c);
      assert s == [s[0]] + s[1..];
      if r == -1 then -1
      else
        assert s[..r + 1] == [s[0]] + s[1..][..r];
        r + 1
  }

  /** Python's `s.lstrip()`. */
  function LStrip(s: string): (r: string)
    ensures |r| <= |s| && r == s[|s| - |r|..]
    ensures r == [] || !IsSpace(r[0])
    ensures forall i :: 0 <= i < |s| - |r| ==> IsSpace(s[i])
    decreases |s|
  {
    if |s| > 0 && IsSpace(s[0]) then LStrip(s[1..]) else s
  }

  /** Python's `s.rstrip()`. */
  function RStrip(s: string): (r: string)
    ensures |r| <= |s| && r == s[..|r|]
    ensures r == [] || !IsSpace(r[|r| - 1])
    ensures forall i :: |r| <= i < |s| ==> IsSpace(s[i])
    decreases |s|
  {
    if |s| > 0 && IsSpace(s[|s| - 1]) then RStrip(s[..|s| - 1]) else s
  }

  /** Python's `s.strip()`. */
  function Strip(s: string): string {
    RStrip(LStrip(s))
  }

  /** The result of `strip()` neither starts nor ends with whitespace, and it is
      what remains of `s` once some whitespace is cut from both ends. */
  lemma StripSpec(s: string)
    ensures Strip(s) == [] || (!IsSpace(Strip(s)[0]) && !IsSpace(Strip(s)[|Strip(s)| - 1]))
    ensures exists i, j :: (0 <= i <= j <= |s| && Strip(s) == s[i..j]
      && (forall k :: 0 <= k < i ==> IsSpace(s[k]))
      && (forall k :: j <= k < |s| ==> IsSpace(s[k])))
  {
    StripEnds(s);
    StripWindow(s);
  }

  /** `strip()` leaves no whitespace at either end. */
  lemma StripEnds(s: string)
    ensures Strip(s) == [] || (!IsSpace(Strip(s)[0]) && !IsSpace(Strip(s)[|Strip(s)| - 1]))
  {
    Ends(LStrip(s), Strip(s));
  }

  /** `strip()` keeps a window of `s` with only whitespace outside it. */
  lemma StripWindow(s: string)
    ensures exists i, j :: (0 <= i <= j <= |s| && Strip(s) == s[i..j]
      && (forall k :: 0 <= k < i ==> IsSpace(s[k]))
      && (forall k :: j <= k < |s| ==> IsSpace(s[k])))
  {
    Window(s, LStrip(s), Strip(s));
  }

  /** Cutting whitespace off the back of `l`, which does not start with
      whitespace, leaves a string that neither starts nor ends with it. */
  lemma Ends(l: string, r: string)
    requires l == [] || !IsSpace(l[0])
    requires |r| <= |l| && r == l[..|r|]
    requires r == [] || !IsSpace(r[|r| - 1])
    ensures r == [] || (!IsSpace(r[0]) && !IsSpace(r[|r| - 1]))
  {
    if r != [] {
      assert r[0] == l[0];
    }
  }

  /** Cutting whitespace off the front of `s` to get `l`, then off the back
      of `l` to get `r`, keeps a window of `s` with whitespace on both sides. */
  lemma Window(s: string, l: string, r: string)
    requires |l| <= |s| && l == s[|s| - |l|..]
    requires forall k :: 0 <= k < |s| - |l| ==> IsSpace(s[k])
    requires |r| <= |l| && r == l[..|r|]
    requires forall k :: |r| <= k < |l| ==> IsSpace(l[k])
    ensures exists i, j :: (0 <= i <= j <= |s| && r == s[i..j]
      && (forall k :: 0 <= k < i ==> IsSpace(s[k]))
      && (forall k :: j <= k < |s| ==> IsSpace(s[k])))
  {
    var i := |s| - |l|;
    var j := i + |r|;
    forall k | j <= k < |s| ensures IsSpace(s[k]) {
      assert s[k] == l[k - i];
    }
    assert 0 <= i <= j <= |s| && r == s[i..j]
      && (forall k :: 0 <= k < i ==> IsSpace(s[k]))
      && (forall k :: j <= k < |s| ==> IsSpace(s[k]));
  }

  /** A string without whitespace at either end is its own `strip()`. */
  lemma StripIdentity(s: string)
    requires s == [] || (!IsSpace(s[0]) && !IsSpace(s[|s| - 1]))
    ensures Strip(s) == s
  {
  }

  /** `strip()` is idempotent. */
  lemma StripIdempotent(s: string)
    ensures Strip(Strip(s)) == Strip(s)
  {
    StripSpec(s);
    StripIdentity(Strip(s));
  }

  /** `strip()` is empty exactly when the string is all whitespace. */
  lemma StripEmpty(s: string)
    ensures Strip(s) == [] <==> forall k :: 0 <= k < |s| ==> IsSpace(s[k])
  {
    var l := LStrip(s);
    if l != [] {
      assert !IsSpace(s[|s| - |l|]);
      assert !IsSpace(l[0]);
      assert RStrip(l) != [];
    }
  }

  /** Python's `s.lstrip(chars)`: drops leading characters that belong to `cs`. */
  function LStripChars(s: string, cs: set<char>): (r: string)
    ensures |r| <= |s| && r == s[|s| - |r|..]
    ensures r == [] || r[0] !in cs
    ensures forall i :: 0 <= i < |s| - |r| ==> s[i] in cs
    decreases |s|
  {
    if |s| > 0 && s[0] in cs then LStripChars(s[1..], cs) else s
  }

  /** Python's `s.rstrip(chars)`. */
  function RStripChars(s: string, cs: set<char>): (r: string)
    ensures |r| <= |s| && r == s[..|r|]
    ensures r == [] || r[|r| - 1] !in cs
    ensures forall i :: |r| <= i < |s| ==> s[i] in cs
    decreases |s|
  {
    if |s| > 0 && s[|s| - 1] in cs then RStripChars(s[..|s| - 1], cs) else s
  }

  /** Python's `s.strip(chars)`. */
  function StripChars(s: string, cs: set<char>): string {
    RStripChars(LStripChars(s, cs), cs)
  }

  /** Python's `s.lower()`, for ASCII letters. */
  function LowerChar(c: char): (r: char)
    ensures IsAsciiLetter(c) <==> IsAsciiLetter(r)
    ensures !('A' <= r <= 'Z')
  {
    if 'A' <= c <= 'Z' then (c as int + 32) as char else c
  }

  function Lower(s: string): (r: string)
    ensures |r| == |s|
    ensures forall i :: 0 <= i < |s| ==> r[i] == LowerChar(s[i])
  {
    seq(|s|, i requires 0 <= i < |s| => LowerChar(s[i]))
  }

  /** Lower-casing is idempotent, so a lower-cased key compares equal to itself lowered. */
  lemma LowerIdempotent(s: string)
    ensures Lower(Lower(s)) == Lower(s)
  {
  }

  /** Python's `s.replace(c, rep)` for a single character `c`. */
  function ReplaceChar(s: string, c: char, rep: string): (r: string)
    ensures c !in rep ==> c !in r
    ensures c !in s ==> r == s
    decreases |s|
  {
    if s == [] then []
    else (if s[0] == c then rep else [s[0]]) + ReplaceChar(s[1..], c, rep)
  }

  /** Replacing one character by another keeps the length and changes exactly
      the positions that held it. */
  lemma {:induction false} ReplaceCharPointwise(s: string, c: char, d: char)
    ensures |ReplaceChar(s, c, [d])| == |s|
    ensures forall i :: 0 <= i < |s| ==> ReplaceChar(s, c, [d])[i] == (if s[i] == c then d else s[i])
    decreases |s|
  {
    if s != [] {
      ReplaceCharPointwise(s[1..], c, d);
    }
  }

  /** Replacing one character leaves out any other character absent from
      both the string and the replacement. */
  lemma {:induction false} ReplaceCharAbsent(s: string, c: char, rep: string, d: char)
    requires d !in s && d !in rep
    ensures d !in ReplaceChar(s, c, rep)
    decreases |s|
  {
    if s != [] {
      assert d != s[0];
      ReplaceCharAbsent(s[1..], c, rep, d);
    }
  }

  /** `replace` distributes over concatenation. */
  lemma {:induction false} ReplaceCharAppend(a: string, b: string, c: char, rep: string)
    ensures ReplaceChar(a + b, c, rep) == ReplaceChar(a, c, rep) + ReplaceChar(b, c, rep)
    decreases |a|
  {
    if a == [] {
      assert a + b == b;
    } else {
      assert (a + b)[1..] == a[1..] + b;
      ReplaceCharAppend(a[1..], b, c, rep);
    }
  }

  /** Python's `s.split(sep)` for a one-character separator: always at least one piece. */
  function Split(s: string, sep: char): (r: seq<string>)
    ensures |r| >= 1
    ensures forall i :: 0 <= i < |r| ==> sep !in r[i]
    decreases |s|
  {
    var i := FindChar(s, sep);
    if i < 0 then [s]
    else
      var rest := Split(s[i + 1..], sep);
      PiecesCons(s[..i], rest, sep);
      [s[..i]] + rest
  }

  /** Adding a separator-free piece in front keeps every piece separator-free. */
  lemma PiecesCons(head: string, rest: seq<string>, sep: char)
    requires sep !in head
    requires forall j :: 0 <= j < |rest| ==> sep !in rest[j]
    ensures forall j :: 0 <= j < |[head] + rest| ==> sep !in ([head] + rest)[j]
  {
    var r := [head] + rest;
    forall j | 0 <= j < |r| ensures sep !in r[j] {
      if j > 0 {
        assert r[j] == rest[j - 1];
      }
    }
  }

  /** Python's `sep.join(parts)`. */
  function Join(parts: seq<string>, sep: char): string
    decreases |parts|
  {
    if |parts| == 0 then ""
    else if |parts| == 1 then parts[0]
    else parts[0] + [sep] + Join(parts[1..], sep)
  }

  /** A string with the separator splits into the text before it and the
      pieces of the text after it. */
  lemma SplitFound(s: string, sep: char)
    requires FindChar(s, sep) >= 0
    ensures var i := FindChar(s, sep);
      Split(s, sep) == [s[..i]] + Split(s[i + 1..], sep)
  {
  }

  /** Joining a first piece onto at least one more puts the separator between. */
  lemma JoinCons(head: string, rest: seq<string>, sep: char)
    requires rest != []
    ensures Join([head] + rest, sep) == head + [sep] + Join(rest, sep)
  {
    assert ([head] + rest)[1..] == rest;
  }

  /** One step of the round trip: the text after the first separator joins
      back from its pieces, so the whole string does. */
  lemma {:induction false} JoinSplitStep(s: string, sep: char)
    requires FindChar(s, sep) >= 0
    ensures Join(Split(s, sep), sep) == s
    decreases |s|, 0
  {
    var i := FindChar(s, sep);
    var head, tail := s[..i], s[i + 1..];
    var rest := Split(tail, sep);
    JoinSplit(tail, sep);
    SplitFound(s, sep);
    JoinCons(head, rest, sep);
    CutAt(s, i);
  }

  /** The prefix up to position `i` grows by the element there, and it and
      the rest make up the whole sequence again. */
  lemma TakeOneMore<T>(s: seq<T>, i: nat)
    requires i < |s|
    ensures s[..i + 1] == s[..i] + [s[i]]
    ensures s[..i + 1] + s[i + 1..] == s
  {
  }

  /** A string is the text before position `i`, the character there, and the text after. */
  lemma CutAt<T>(s: seq<T>, i: nat)
    requires i < |s|
    ensures s == s[..i] + [s[i]] + s[i + 1..]
  {
  }

  /** Joining the pieces of a split gives the string back. */
  lemma {:induction false} JoinSplit(s: string, sep: char)
    ensures Join(Split(s, sep), sep) == s
    decreases |s|, 1
  {
    if FindChar(s, sep) >= 0 {
      JoinSplitStep(s, sep);
    } else {
      JoinSplitNone(s, sep);
    }
  }

  /** A string without the separator is its own single piece. */
  lemma JoinSplitNone(s: string, sep: char)
    requires FindChar(s, sep) < 0
    ensures Split(s, sep) == [s]
    ensures Join(Split(s, sep), sep) == s
  {
  }

  /** Splitting a join of separator-free pieces gives the pieces back. */
  lemma {:induction false} SplitJoin(parts: seq<string>, sep: char)
    requires |parts| >= 1
    requires forall i :: 0 <= i < |parts| ==> sep !in parts[i]
    ensures Split(Join(parts, sep), sep) == parts
    decreases |parts|
  {
    if |parts| > 1 {
      var s := Join(parts, sep);
      var p := parts[0];
      assert s == p + ([sep] + Join(parts[1..], sep));
      assert s[|p|] == sep;
      assert s[..|p|] == p;
      assert FindChar(s, sep) == |p|;
      var rest := Join(parts[1..], sep);
      assert s[|p| + 1..] == rest;
      assert Split(s, sep) == [p] + Split(rest, sep);
      SplitJoin(parts[1..], sep);
      assert parts == [p] + parts[1..];
    } else {
      assert FindChar(parts[0], sep) == -1;
    }
  }

  /** The length of the run of non-whitespace characters at the start of `s`. */
  function WordLength(s: string): (n: nat)
    ensures n <= |s|
    ensures forall i :: 0 <= i < n ==> !IsSpace(s[i])
    ensures n == |s| || IsSpace(s[n])
    decreases |s|
  {
    if s == [] || IsSpace(s[0]) then 0 else 1 + WordLength(s[1..])
  }

  predicate IsWord(w: string) {
    w != [] && forall i :: 0 <= i < |w| ==> !IsSpace(w[i])
  }

  /** Python's `s.split()`: the maximal runs of non-whitespace, in order. */
  function Words(s: string): (r: seq<string>)
    ensures forall i :: 0 <= i < |r| ==> IsWord(r[i])
    decreases |s|
  {
    if s == [] then []
    else if IsSpace(s[0]) then Words(s[1..])
    else
      var n := WordLength(s);
      [s[..n]] + Words(s[n..])
  }

  /** A string has no words exactly when it is all whitespace. */
  lemma {:induction false} WordsEmpty(s: string)
    ensures Words(s) == [] <==> forall k :: 0 <= k < |s| ==> IsSpace(s[k])
    decreases |s|
  {
    if s != [] && IsSpace(s[0]) {
      WordsEmpty(s[1..]);
      assert forall k :: 1 <= k < |s| ==> s[k] == s[1..][k - 1];
    }
  }

  /** A single word is split into itself. */
  lemma WordsOfWord(w: string)
    requires IsWord(w)
    ensures Words(w) == [w]
  {
    assert WordLength(w) == |w|;
    assert w[..|w|] == w;
  }

  /** A word followed by whitespace comes first, then the words of the rest. */
  lemma WordsAfterWord(w: string, c: char, rest: string)
    requires IsWord(w) && IsSpace(c)
    ensures Words(w + [c] + rest) == [w] + Words(rest)
  {
    var s := w + [c] + rest;
    assert s[|w|] == c;
    assert forall i :: 0 <= i < |w| ==> s[i] == w[i];
    var n := WordLength(s);
    assert n == |w|;
    assert s[..n] == w;
    assert s[n..] == [c] + rest;
    assert ([c] + rest)[1..] == rest;
  }

  /** Splitting words joined by single spaces gives the words back. */
  lemma {:induction false} WordsJoin(ws: seq<string>)
    requires forall i :: 0 <= i < |ws| ==> IsWord(ws[i])
    ensures Words(Join(ws, ' ')) == ws
    decreases |ws|
  {
    if |ws| == 1 {
      WordsOfWord(ws[0]);
    } else if |ws| > 1 {
      WordsJoin(ws[1..]);
      WordsAfterWord(ws[0], ' ', Join(ws[1..], ' '));
      assert [ws[0]] + ws[1..] == ws;
    }
  }

  /** The characters of `s` that are not whitespace, in order. */
  function NonSpace(s: string): string
    decreases |s|
  {
    if s == [] then [] else (if IsSpace(s[0]) then [] else [s[0]]) + NonSpace(s[1..])
  }

  /** The pieces of `ws` one after another. */
  function Concat(ws: seq<string>): string
    decreases |ws|
  {
    if ws == [] then [] else ws[0] + Concat(ws[1..])
  }

  /** A run without whitespace keeps all its characters. */
  lemma {:induction false} NonSpaceOfRun(s: string)
    requires forall i :: 0 <= i < |s| ==> !IsSpace(s[i])
    ensures NonSpace(s) == s
    decreases |s|
  {
    if s != [] {
      NonSpaceOfRun(s[1..]);
    }
  }

  /** Dropping whitespace distributes over concatenation. */
  lemma {:induction false} NonSpaceAppend(a: string, b: string)
    ensures NonSpace(a + b) == NonSpace(a) + NonSpace(b)
    decreases |a|
  {
    if a == [] {
      assert a + b == b;
    } else {
      assert (a + b)[1..] == a[1..] + b;
      NonSpaceAppend(a[1..], b);
    }
  }

  /** The words hold every non-whitespace character of `s`, in order, and
      nothing else. */
  lemma {:induction false} WordsCover(s: string)
    ensures Concat(Words(s)) == NonSpace(s)
    decreases |s|
  {
    if s != [] {
      if IsSpace(s[0]) {
        WordsCover(s[1..]);
      } else {
        var n := WordLength(s);
        WordsCover(s[n..]);
        assert ([s[..n]] + Words(s[n..]))[1..] == Words(s[n..]);
        NonSpaceOfRun(s[..n]);
        NonSpaceAppend(s[..n], s[n..]);
        assert s[..n] + s[n..] == s;
      }
    }
  }

  /** Decimal rendering of a natural number, as Python's `str(n)`. */
  function NatToString(n: nat): (r: string)
    ensures |r| >= 1
    ensures forall i :: 0 <= i < |r| ==> IsDigit(r[i])
    ensures n > 0 ==> r[0] != '0'
    decreases n
  {
    var d := ['0' + (n % 10) as char];
    if n < 10 then d else NatToString(n / 10) + d
  }

  /** The number a string of decimal digits stands for, read left to right. */
  function DigitsValue(s: string): nat
    requires forall i :: 0 <= i < |s| ==> IsDigit(s[i])
    decreases |s|
  {
    if s == [] then 0
    else
      assert IsDigit(s[|s| - 1]);
      DigitsValue(s[..|s| - 1]) * 10 + (s[|s| - 1] as int - '0' as int)
  }

  /** `str(n)` reads back as `n`. */
  lemma {:induction false} NatToStringValue(n: nat)
    ensures DigitsValue(NatToString(n)) == n
    decreases n
  {
    var r := NatToString(n);
    if n >= 10 {
      NatToStringValue(n / 10);
      assert r[..|r| - 1] == NatToString(n / 10);
    }
  }

  /** Different numbers have different renderings. */
  lemma NatToStringInjective(m: nat, n: nat)
    ensures NatToString(m) == NatToString(n) <==> m == n
  {
    NatToStringValue(m);
    NatToStringValue(n);
  }

  /** Python's `s[:n]`: at most the first `n` characters. */
  function Take(s: string, n: nat): (r: string)
    ensures |r| <= n && StartsWith(s, r)
    ensures |s| <= n ==> r == s
    ensures |s| > n ==> |r| == n
  {
    if |s| <= n then s else s[..n]
  }

  /** Python's `s.rsplit(sep, 1)`: the text before and after the last `sep`,
      or `None` when `sep` does not occur (the split then has one piece). */
  function RSplitOnce(s: string, sep: char): (r: Option<(string, string)>)
    ensures r.None? <==> sep !in s
    ensures r.Some? ==> r.value.0 + [sep] + r.value.1 == s && sep !in r.value.1
  {
    var i := RFindChar(s, sep);
    if i < 0 then None
    else
      assert s == s[..i] + [sep] + s[i + 1..];
      Some((s[..i], s[i + 1..]))
  }

  /** A character other than `c` occurs in `s`. */
  predicate HasOther(s: string, c: char) {
    exists k :: 0 <= k < |s| && s[k] != c
  }

  /** Python's `os.path.splitext(p)` for `/`-separated paths: the extension
      starts at the last `.` of the last path component, unless everything
      before that dot in the component is dots. */
  function SplitExt(p: string): (r: (string, string))
    ensures r.0 + r.1 == p
    ensures r.1 == [] || (r.1[0] == '.' && '.' !in r.1[1..] && '/' !in r.1)
  {
    var sep := RFindChar(p, '/');
    var dot := RFindChar(p, '.');
    if dot > sep && HasOther(p[sep + 1..dot], '.') then
      var ext := p[dot..];
      assert p[..dot] + ext == p;
      assert ext[1..] == p[dot + 1..];
      assert '/' !in ext by {
        if sep < 0 {
          assert '/' !in p;
        } else {
          assert ext == p[sep + 1..][dot - sep - 1..];
        }
      }
      (p[..dot], ext)
    else (p, [])
  }

  /** The last component of a `/`-separated path. */
  function LastPart(p: string): string {
    p[RFindChar(p, '/') + 1..]
  }

  /** Appending a `.` and a dot-free extension makes that `.` the last one. */
  lemma DotIsLast(stem: string, e: string)
    requires '.' !in e
    ensures RFindChar(stem + "." + e, '.') == |stem|
  {
    var p := stem + "." + e;
    assert p[|stem|] == '.';
    assert p[|stem| + 1..] == e;
    RFindCharAt(p, '.', |stem|);
  }

  /** Appending a `.` and a slash-free extension keeps the last `/`. */
  lemma SlashKept(stem: string, e: string)
    requires '/' !in e
    ensures RFindChar(stem + "." + e, '/') == RFindChar(stem, '/')
  {
    var p := stem + "." + e;
    var k := RFindChar(stem, '/');
    if k >= 0 {
      assert p[k] == '/';
      assert p[k + 1..] == stem[k + 1..] + ("." + e);
      RFindCharAt(p, '/', k);
    } else {
      assert p == stem + ("." + e);
      assert '/' !in "." + e;
    }
  }

  /** The positions `SplitExt` computes on `stem + "." + e`, and the part of
      the last component before the dot. */
  lemma DotExtPositions(stem: string, e: string)
    requires '.' !in e && '/' !in e
    ensures RFindChar(stem + "." + e, '.') == |stem|
    ensures RFindChar(stem + "." + e, '/') == RFindChar(stem, '/')
    ensures (stem + "." + e)[RFindChar(stem, '/') + 1..|stem|] == LastPart(stem)
  {
    DotIsLast(stem, e);
    SlashKept(stem, e);
    var p := stem + "." + e;
    assert p[..|stem|] == stem;
  }

  /** `splitext` finds the extension after the last dot when the last
      component has something other than dots before that dot. */
  lemma SplitExtFound(stem: string, e: string)
    requires '.' !in e && '/' !in e && HasOther(LastPart(stem), '.')
    ensures SplitExt(stem + "." + e) == (stem, "." + e)
  {
    var p := stem + "." + e;
    DotExtPositions(stem, e);
    var sep, dot := RFindChar(p, '/'), RFindChar(p, '.');
    assert p[sep + 1..dot] == LastPart(stem);
    assert HasOther(p[sep + 1..dot], '.');
    SplitExtTaken(p);
    assert p[..|stem|] == stem;
    assert p[|stem|..] == "." + e;
  }

  /** `SplitExt` cuts at the last dot when it comes after the last slash and
      the component before it holds a non-dot. */
  lemma SplitExtTaken(p: string)
    requires RFindChar(p, '.') > RFindChar(p, '/')
    requires HasOther(p[RFindChar(p, '/') + 1..RFindChar(p, '.')], '.')
    ensures SplitExt(p) == (p[..RFindChar(p, '.')], p[RFindChar(p, '.')..])
  {
  }

  /** A last dot preceded in its component only by dots, as in `.bashrc`,
      starts no extension. */
  lemma SplitExtLeadingDots(stem: string, e: string)
    requires '.' !in e && '/' !in e && !HasOther(LastPart(stem), '.')
    ensures SplitExt(stem + "." + e) == (stem + "." + e, "")
  {
    DotExtPositions(stem, e);
    SplitExtKept(stem + "." + e);
  }

  /** A last component without a dot has no extension. */
  lemma SplitExtNoDot(p: string)
    requires '.' !in LastPart(p)
    ensures SplitExt(p) == (p, "")
  {
    DotBeforeSlash(p);
    SplitExtKept(p);
  }

  /** Without a dot in the last component, the last dot precedes the last slash. */
  lemma DotBeforeSlash(p: string)
    requires '.' !in LastPart(p)
    ensures RFindChar(p, '.') <= RFindChar(p, '/')
  {
    LastBefore(p, '.', RFindChar(p, '/') + 1);
  }

  /** A character absent from `s[n..]` last occurs before `n`. */
  lemma LastBefore(s: string, c: char, n: int)
    requires 0 <= n <= |s| && c !in s[n..]
    ensures RFindChar(s, c) < n
  {
    forall k | n <= k < |s| ensures s[k] != c {
      assert s[k] == s[n..][k - n];
    }
  }

  /** `SplitExt` keeps the whole path when the last dot does not start an
      extension. */
  lemma SplitExtKept(p: string)
    requires !(RFindChar(p, '.') > RFindChar(p, '/')
               && HasOther(p[RFindChar(p, '/') + 1..RFindChar(p, '.')], '.'))
    ensures SplitExt(p) == (p, "")
  {
  }

  /** `v` sits in `c` with no `open` before it and no `close` after it: it
      runs from the first `open` to the last `close` when it starts with
      the one and ends with the other. */
  predicate OuterSpan(c: string, v: string, open: char, close: char) {
    exists i :: 0 <= i <= |c| - |v| && c[i..i + |v|] == v && open !in c[..i] && close !in c[i + |v|..]
  }

  /** Every `close` in `c` comes before every `open`. */
  predicate ClosesFirst(c: string, open: char, close: char) {
    forall a, b :: 0 <= a < |c| && 0 <= b < |c| && c[a] == close && c[b] == open ==> a < b
  }

  /** With both characters present, the last `close` comes after the first
      `open` exactly when some `close` follows some `open`, and the text
      between them is then the outer span. */
  lemma BraceSpan(c: string, open: char, close: char)
    requires open != close && open in c && close in c
    ensures RFindChar(c, close) > FindChar(c, open) <==> !ClosesFirst(c, open, close)
    ensures RFindChar(c, close) > FindChar(c, open) ==>
      var v := c[FindChar(c, open)..RFindChar(c, close) + 1];
      |v| >= 2 && v[0] == open && v[|v| - 1] == close && OuterSpan(c, v, open, close)
  {
    var s, e := FindChar(c, open), RFindChar(c, close);
    if e > s {
      var v := c[s..e + 1];
      assert c[s..s + |v|] == v;
      assert v[0] == open && v[|v| - 1] == close;
    } else {
      forall a, b | 0 <= a < |c| && 0 <= b < |c| && c[a] == close && c[b] == open
        ensures a < b
      {
        assert c[a] !in c[e + 1..] && c[b] !in c[..s];
      }
    }
  }

  /** `v` is a window of `s`: what is cut before it satisfies `lead` and what
      is cut after it satisfies `tail`. */
  predicate Trims(s: string, v: string, lead: char -> bool, tail: char -> bool) {
    exists i, j :: (0 <= i <= j <= |s| && s[i..j] == v
      && (forall k :: 0 <= k < i ==> lead(s[k]))
      && (forall k :: j <= k < |s| ==> tail(s[k])))
  }

  /** A window of a window is a window, with the cuts of both. */
  lemma TrimsCompose(s: string, t: string, u: string, l1: char -> bool, t1: char -> bool,
                     l2: char -> bool, t2: char -> bool, lead: char -> bool, tail: char -> bool)
    requires Trims(s, t, l1, t1) && Trims(t, u, l2, t2)
    requires forall ch :: (l1(ch) || l2(ch)) ==> lead(ch)
    requires forall ch :: (t1(ch) || t2(ch)) ==> tail(ch)
    ensures Trims(s, u, lead, tail)
  {
    var i, j :| 0 <= i <= j <= |s| && s[i..j] == t
      && (forall k :: 0 <= k < i ==> l1(s[k])) && (forall k :: j <= k < |s| ==> t1(s[k]));
    var i2, j2 :| 0 <= i2 <= j2 <= |t| && t[i2..j2] == u
      && (forall k :: 0 <= k < i2 ==> l2(t[k])) && (forall k :: j2 <= k < |t| ==> t2(t[k]));
    forall k | i <= k < i + i2 ensures lead(s[k]) {
      assert s[k] == t[k - i];
    }
    forall k | i + j2 <= k < j ensures tail(s[k]) {
      assert s[k] == t[k - i];
    }
    SliceOfSlice(s, i, j, i2, j2);
  }

  lemma SliceOfSlice<T>(s: seq<T>, i: nat, j: nat, i2: nat, j2: nat)
    requires i <= j <= |s| && i2 <= j2 <= j - i
    ensures s[i..j][i2..j2] == s[i + i2..i + j2]
  {
    var a, b := s[i..j][i2..j2], s[i + i2..i + j2];
    assert |a| == |b|;
    forall k | 0 <= k < |a| ensures a[k] == b[k] {
      assert a[k] == s[i..j][i2 + k];
      assert s[i..j][i2 + k] == s[i + i2 + k];
    }
  }

  /** `strip()` cuts only whitespace. */
  lemma StripTrims(s: string)
    ensures Trims(s, Strip(s), IsSpace, IsSpace)
  {
    StripWindow(s);
  }

  /** `strip(chars)` cuts only characters the predicate accepts, when it
      accepts every character of `cs`. */
  lemma StripCharsTrims(s: string, cs: set<char>, cut: char -> bool)
    requires forall ch :: ch in cs ==> cut(ch)
    ensures Trims(s, StripChars(s, cs), cut, cut)
  {
    var l := LStripChars(s, cs);
    LStripCharsTrims(s, cs, cut);
    RStripCharsTrims(l, cs, cut);
    TrimsCompose(s, l, RStripChars(l, cs), cut, cut, cut, cut, cut, cut);
  }

  /** `lstrip(chars)` cuts only characters of `cs`, at the front. */
  lemma LStripCharsTrims(s: string, cs: set<char>, cut: char -> bool)
    requires forall ch :: ch in cs ==> cut(ch)
    ensures Trims(s, LStripChars(s, cs), cut, cut)
  {
    var l := LStripChars(s, cs);
    TrimsAt(s, l, |s| - |l|, |s|, cut, cut);
  }

  /** `rstrip(chars)` cuts only characters of `cs`, at the back. */
  lemma RStripCharsTrims(s: string, cs: set<char>, cut: char -> bool)
    requires forall ch :: ch in cs ==> cut(ch)
    ensures Trims(s, RStripChars(s, cs), cut, cut)
  {
    var r := RStripChars(s, cs);
    TrimsAt(s, r, 0, |r|, cut, cut);
  }

  /** A window given by its bounds. */
  lemma TrimsAt(s: string, v: string, i: int, j: int, lead: char -> bool, tail: char -> bool)
    requires 0 <= i <= j <= |s| && s[i..j] == v
    requires forall k :: 0 <= k < i ==> lead(s[k])
    requires forall k :: j <= k < |s| ==> tail(s[k])
    ensures Trims(s, v, lead, tail)
  {
  }

  /** `lstrip(chars)` stops at the first character outside `cs`. */
  lemma LStripCharsAt(s: string, cs: set<char>, n: nat)
    requires n <= |s| && (forall k :: 0 <= k < n ==> s[k] in cs) && (n == |s| || s[n] !in cs)
    ensures LStripChars(s, cs) == s[n..]
  {
    var r := LStripChars(s, cs);
    var m := |s| - |r|;
    assert m < |s| ==> r[0] == s[m];
    assert m == n;
  }

  /** `rstrip(chars)` stops at the last character outside `cs`. */
  lemma RStripCharsAt(s: string, cs: set<char>, n: nat)
    requires n <= |s| && (forall k :: n <= k < |s| ==> s[k] in cs) && (n == 0 || s[n - 1] !in cs)
    ensures RStripChars(s, cs) == s[..n]
  {
    var r := RStripChars(s, cs);
    assert |r| > 0 ==> r[|r| - 1] == s[|r| - 1];
    assert |r| == n;
  }

  /** `lstrip()` stops at the first non-whitespace character. */
  lemma LStripAt(s: string, n: nat)
    requires n <= |s| && (forall k :: 0 <= k < n ==> IsSpace(s[k])) && (n == |s| || !IsSpace(s[n]))
    ensures LStrip(s) == s[n..]
  {
    var r := LStrip(s);
    var m := |s| - |r|;
    assert m < |s| ==> r[0] == s[m];
    assert m == n;
  }

  /** `rstrip()` stops at the last non-whitespace character. */
  lemma RStripAt(s: string, n: nat)
    requires n <= |s| && (forall k :: n <= k < |s| ==> IsSpace(s[k])) && (n == 0 || !IsSpace(s[n - 1]))
    ensures RStrip(s) == s[..n]
  {
    var r := RStrip(s);
    assert |r| > 0 ==> r[|r| - 1] == s[|r| - 1];
    assert |r| == n;
  }
}
