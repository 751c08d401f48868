/** The operations of `java.lang.String` and `java.lang.Integer` that the
    framework relies on, with the JDK's exact behaviour: `replace` of a
    literal, `split` with its removal of trailing empty strings, `trim`,
    and `Integer.parseInt` in radix 10. */
module JavaStrings {
  import opened Wrappers

  /** `d` occurs in `s` starting at index `j`. */
  predicate OccursAt(s: string, d: string, j: nat)
  {
    j + |d| <= |s| && s[j..j + |d|] == d
  }

  /** `String.indexOf(d)`: the first index at which `d` occurs, if any. */
  function IndexOf(s: string, d: string): (r: Option<nat>)
    requires |d| > 0
    ensures r.Some? ==> OccursAt(s, d, r.value)
    ensures r.Some? ==> forall j :: 0 <= j < r.value ==> !OccursAt(s, d, j)
    ensures r.None? ==> forall j :: 0 <= j ==> !OccursAt(s, d, j)
    decreases |s|
  {
    OccursShift(s, d);
    if |s| < |d| then None
    else if s[..|d|] == d then Some(0)
    else
      match IndexOf(s[1..], d)
      case None => None
      case Some(i) => Some(i + 1)
  }

  /** An occurrence at `j + 1` in `s` is one at `j` in `s[1..]`. */
  lemma OccursShift(s: string, d: string)
    ensures forall j :: 1 <= j && |s| > 0 ==> (OccursAt(s, d, j) <==> OccursAt(s[1..], d, j - 1))
  {
    forall j | 1 <= j && |s| > 0
      ensures OccursAt(s, d, j) <==> OccursAt(s[1..], d, j - 1)
    {
      if j + |d| <= |s| {
        var here, there := s[j..j + |d|], s[1..][j - 1..j - 1 + |d|];
        assert forall k :: 0 <= k < |d| ==> here[k] == there[k];
        assert here == there;
      }
    }
  }

  /** `String.replace(t, r)` for a non-empty literal target: every
      occurrence of `t`, found left to right without overlap, becomes `r`. */
  function ReplaceAll(s: string, t: string, r: string): (out: string)
    requires |t| > 0
    ensures forall c :: c in out ==> c in s || c in r
    decreases |s|
  {
    if |s| < |t| then s
    else if s[..|t|] == t then r + ReplaceAll(s[|t|..], t, r)
    else [s[0]] + ReplaceAll(s[1..], t, r)
  }

  /** Replacing one character by another is a pointwise map over `s`. */
  lemma {:induction false} ReplaceCharPointwise(s: string, c: char, e: char)
    ensures |ReplaceAll(s, [c], [e])| == |s|
    ensures forall k :: 0 <= k < |s| ==>
      ReplaceAll(s, [c], [e])[k] == if s[k] == c then e else s[k]
    decreases |s|
  {
    if |s| >= 1 {
      ReplaceCharPointwise(s[1..], c, e);
      var rest := ReplaceAll(s[1..], [c], [e]);
      if s[..1] == [c] {
        assert ReplaceAll(s, [c], [e]) == [e] + rest;
      } else {
        assert ReplaceAll(s, [c], [e]) == [s[0]] + rest;
      }
    }
  }

  /** Removing every occurrence of `t` never lengthens the text. */
  lemma {:induction false} RemoveAllShrinks(s: string, t: string)
    requires |t| > 0
    ensures |ReplaceAll(s, t, "")| <= |s|
    decreases |s|
  {
    if |s| >= |t| {
      if s[..|t|] == t {
        RemoveAllShrinks(s[|t|..], t);
      } else {
        RemoveAllShrinks(s[1..], t);
      }
    }
  }

  /** A leading occurrence of `t` is replaced and the scan goes on after it. */
  lemma ReplaceLeading(t: string, s: string, r: string)
    requires |t| > 0
    ensures ReplaceAll(t + s, t, r) == r + ReplaceAll(s, t, r)
  {
    assert (t + s)[..|t|] == t;
    assert (t + s)[|t|..] == s;
  }

  /** Where no occurrence of `t` starts, the first character is copied. */
  lemma ReplaceStep(s: string, t: string, r: string)
    requires |t| > 0 && |s| > 0 && !OccursAt(s, t, 0)
    ensures ReplaceAll(s, t, r) == [s[0]] + ReplaceAll(s[1..], t, r)
  {
    if |s| >= |t| {
      assert s[..|t|] != t;
    } else {
      assert [s[0]] + s[1..] == s;
    }
  }

  /** Occurrences after the first character are occurrences in the tail. */
  lemma NoOccurrenceInTail(p: string, s: string, t: string)
    requires |t| > 0 && |p| > 0
    requires forall j :: 0 <= j < |p| ==> !OccursAt(p + s, t, j)
    ensures forall j :: 0 <= j < |p| - 1 ==> !OccursAt(p[1..] + s, t, j)
  {
    var ps := p + s;
    assert ps[1..] == p[1..] + s;
    OccursShift(ps, t);
    forall j | 0 <= j < |p| - 1
      ensures !OccursAt(p[1..] + s, t, j)
    {
      assert !OccursAt(ps, t, j + 1);
    }
  }

  /** A prefix in which no occurrence of `t` starts is copied unchanged. */
  lemma {:induction false} ReplaceSkips(p: string, s: string, t: string, r: string)
    requires |t| > 0
    requires forall j :: 0 <= j < |p| ==> !OccursAt(p + s, t, j)
    ensures ReplaceAll(p + s, t, r) == p + ReplaceAll(s, t, r)
    decreases |p|
  {
    if |p| > 0 {
      var ps := p + s;
      assert ps[1..] == p[1..] + s;
      NoOccurrenceInTail(p, s, t);
      ReplaceSkips(p[1..], s, t, r);
      ReplaceStep(ps, t, r);
      assert ps[0] == p[0] && [p[0]] + p[1..] == p;
    } else {
      assert p + s == s;
    }
  }

  /** Text in which `t` does not occur is left as it is. */
  lemma ReplaceAbsent(s: string, t: string, r: string)
    requires |t| > 0 && forall j :: 0 <= j < |s| ==> !OccursAt(s, t, j)
    ensures ReplaceAll(s, t, r) == s
  {
    assert s + "" == s;
    ReplaceSkips(s, "", t, r);
  }

  /** An occurrence that ends inside a prefix is an occurrence in that prefix. */
  lemma OccursPrefix(x: string, y: string, d: string, j: nat)
    requires j + |d| <= |x|
    ensures OccursAt(x + y, d, j) <==> OccursAt(x, d, j)
  {
    assert (x + y)[j..j + |d|] == x[j..j + |d|];
  }

  /** An occurrence in a suffix is one in the whole text, shifted. */
  lemma OccursSuffix(x: string, y: string, d: string, j: nat)
    ensures OccursAt(x + y, d, |x| + j) <==> OccursAt(y, d, j)
  {
    if j + |d| <= |y| {
      assert (x + y)[|x| + j..|x| + j + |d|] == y[j..j + |d|];
    }
  }

  /** A one-character pattern occurs exactly where that character is. */
  lemma OccursChar(s: string, c: char, j: nat)
    ensures OccursAt(s, [c], j) <==> j < |s| && s[j] == c
  {
    if j < |s| {
      assert s[j..j + 1] == [s[j]];
    }
  }

  // ---------------------------------------------------------------------
  // String.split with a literal separator and limit 0

  /** The pieces of `s` between the occurrences of `d`, found left to right.
      No piece contains `d`, and there are at least two as soon as `d`
      occurs. */
  function Pieces(s: string, d: string): (ps: seq<string>)
    requires |d| > 0
    ensures |ps| > 0
    ensures IndexOf(s, d).Some? ==> |ps| >= 2
    ensures forall k, j :: 0 <= k < |ps| && 0 <= j ==> !OccursAt(ps[k], d, j)
    decreases |s|
  {
    match IndexOf(s, d)
    case None => [s]
    case Some(i) =>
      var rest := Pieces(s[i + |d|..], d);
      forall j | 0 <= j ensures !OccursAt(s[..i], d, j) {
        if j + |d| <= i {
          assert s[..i][j..j + |d|] == s[j..j + |d|];
          assert !OccursAt(s, d, j);
        }
      }
      [s[..i]] + rest
  }

  /** The pieces put back together with the separator between them. */
  function Join(ps: seq<string>, d: string): string
  {
    if |ps| == 0 then ""
    else if |ps| == 1 then ps[0]
    else ps[0] + d + Join(ps[1..], d)
  }

  /** Round trip: joining the pieces with the separator gives back the text. */
  lemma {:induction false} PiecesJoin(s: string, d: string)
    requires |d| > 0
    ensures Join(Pieces(s, d), d) == s
    decreases |s|
  {
    match IndexOf(s, d)
    case None =>
    case Some(i) =>
      var rest := s[i + |d|..];
      PiecesJoin(rest, d);
      assert Pieces(s, d)[1..] == Pieces(rest, d);
      assert s[i..i + |d|] == d;
      assert s == s[..i] + d + rest;
  }

  /** Drops the empty strings at the end of `ps`. */
  function DropTrailingEmpty(ps: seq<string>): (r: seq<string>)
    ensures |r| <= |ps| && r == ps[..|r|]
    ensures |r| > 0 ==> r[|r| - 1] != ""
    ensures forall k :: |r| <= k < |ps| ==> ps[k] == ""
  {
    if |ps| > 0 && ps[|ps| - 1] == "" then
      var r := DropTrailingEmpty(ps[..|ps| - 1]);
      assert forall k :: |r| <= k < |ps| - 1 ==> ps[..|ps| - 1][k] == ps[k];
      r
    else ps
  }

  /** `s.split(d)` for a separator that is matched literally: when `d`
      does not occur the result is `[s]`; otherwise the pieces between
      occurrences, with trailing empty pieces removed (possibly all of them).
      No element contains the separator. */
  function Split(s: string, d: string): (r: seq<string>)
    requires |d| > 0
    ensures forall k, j :: 0 <= k < |r| && 0 <= j ==> !OccursAt(r[k], d, j)
    ensures IndexOf(s, d).None? ==> r == [s]
    ensures IndexOf(s, d).Some? ==>
      && |r| <= |Pieces(s, d)| && r == Pieces(s, d)[..|r|]
      && (|r| > 0 ==> r[|r| - 1] != "")
      && forall k :: |r| <= k < |Pieces(s, d)| ==> Pieces(s, d)[k] == ""
  {
    if IndexOf(s, d).None? then [s] else DropTrailingEmpty(Pieces(s, d))
  }

  /** The text of `s` before the first occurrence of `d` (all of `s` when none). */
  function Before(s: string, d: string): string
    requires |d| > 0
  {
    match IndexOf(s, d)
    case None => s
    case Some(i) => s[..i]
  }

  /** Whenever `split` yields anything, its first element is the text before
      the first separator. */
  lemma SplitHead(s: string, d: string)
    requires |d| > 0
    requires |Split(s, d)| > 0
    ensures Split(s, d)[0] == Before(s, d)
  {
  }

  /** When `split` yields at least two elements, the text starts with the
      first, the separator and the second. */
  lemma SplitTwoPrefix(s: string, d: string)
    requires |d| > 0 && |Split(s, d)| >= 2
    ensures var r := Split(s, d);
      |r[0]| + |d| + |r[1]| <= |s| && s[..|r[0]| + |d| + |r[1]|] == r[0] + d + r[1]
  {
    var r, ps := Split(s, d), Pieces(s, d);
    assert r[0] == ps[0] && r[1] == ps[1] by {
      assert IndexOf(s, d).Some?;
    }
    var tail := Join(ps[1..], d);
    assert s == ps[0] + d + tail by {
      PiecesJoin(s, d);
    }
    JoinHead(ps[1..], d);
    PrefixThrough(ps[0], d, tail, ps[1]);
  }

  /** The joined text starts with the first piece. */
  lemma JoinHead(ps: seq<string>, d: string)
    requires |ps| > 0
    ensures |ps[0]| <= |Join(ps, d)| && Join(ps, d)[..|ps[0]|] == ps[0]
  {
    if |ps| > 1 {
      assert Join(ps, d) == ps[0] + (d + Join(ps[1..], d));
    }
  }

  /** A prefix `b` of `t` extends to the prefix `a + d + b` of `a + d + t`. */
  lemma PrefixThrough(a: string, d: string, t: string, b: string)
    requires |b| <= |t| && t[..|b|] == b
    ensures (a + d + t)[..|a| + |d| + |b|] == a + d + b
  {
  }

  /** Text without the first character of `d` holds no occurrence of `d`. */
  lemma IndexOfAbsent(s: string, d: string)
    requires |d| > 0 && d[0] !in s
    ensures IndexOf(s, d) == None
  {
  }

  /** When `d` does not occur in `a + d + rest` before the end of `a`, its
      first occurrence is the one right after `a`. */
  lemma IndexOfAfter(a: string, d: string, rest: string)
    requires |d| > 0 && forall j :: 0 <= j < |a| ==> !OccursAt(a + d + rest, d, j)
    ensures IndexOf(a + d + rest, d) == Some(|a|)
  {
    var s := a + d + rest;
    assert s[|a|..|a| + |d|] == d;
    assert OccursAt(s, d, |a|);
  }

  /** The piece before that occurrence is `a`, and splitting goes on after it. */
  lemma PiecesAfter(a: string, d: string, rest: string)
    requires |d| > 0 && forall j :: 0 <= j < |a| ==> !OccursAt(a + d + rest, d, j)
    ensures IndexOf(a + d + rest, d).Some?
    ensures Pieces(a + d + rest, d) == [a] + Pieces(rest, d)
  {
    IndexOfAfter(a, d, rest);
    var s := a + d + rest;
    assert s[..|a|] == a && s[|a| + |d|..] == rest;
  }

  /** Splitting `a + d + b`, where `d` occurs only between the two parts,
      gives the two parts, minus trailing empty ones. */
  lemma SplitPair(a: string, d: string, b: string)
    requires |d| > 0 && forall j :: 0 <= j && j != |a| ==> !OccursAt(a + d + b, d, j)
    ensures Split(a + d + b, d) == DropTrailingEmpty([a, b])
  {
    PiecesAfter(a, d, b);
    forall j | 0 <= j ensures !OccursAt(b, d, j) {
      OccursSuffix(a + d, b, d, j);
    }
    assert IndexOf(b, d).None?;
    assert Pieces(b, d) == [b];
  }

  /** The same for three parts, `d` occurring only at the two joints. */
  lemma SplitTriple(a: string, d: string, b: string, c: string)
    requires |d| > 0
    requires forall j :: 0 <= j && j != |a| && j != |a| + |d| + |b| ==> !OccursAt(a + d + b + d + c, d, j)
    ensures Split(a + d + b + d + c, d) == DropTrailingEmpty([a, b, c])
  {
    var t := b + d + c;
    var s := a + d + b + d + c;
    assert s == a + d + t && s == (a + d) + t && s == (a + d + b + d) + c;
    PiecesAfter(a, d, t);
    forall j | 0 <= j < |b| ensures !OccursAt(b + d + c, d, j) {
      OccursSuffix(a + d, t, d, j);
    }
    PiecesAfter(b, d, c);
    forall j | 0 <= j ensures !OccursAt(c, d, j) {
      OccursSuffix(a + d + b + d, c, d, j);
    }
    assert IndexOf(c, d).None?;
    assert Pieces(c, d) == [c];
    assert Pieces(a + d + t, d) == [a, b, c];
  }

  /** Non-empty text without the separator is one non-empty piece whose
      first character differs from the separator. */
  lemma NoSeparatorFirst(s: string, c: char)
    requires s != "" && IndexOf(s, [c]).None?
    ensures Pieces(s, [c]) == [s] && s[0] != c
  {
    assert !OccursAt(s, [c], 0);
    assert s[0..1] == [s[0]];
  }

  /** All pieces of a split on one character are empty exactly when the
      text consists of that character only. */
  lemma {:induction false} PiecesAllEmpty(s: string, c: char)
    ensures (forall k :: 0 <= k < |Pieces(s, [c])| ==> Pieces(s, [c])[k] == "")
        <==> (forall k :: 0 <= k < |s| ==> s[k] == c)
    decreases |s|
  {
    var ps := Pieces(s, [c]);
    match IndexOf(s, [c])
    case None =>
      if s != "" {
        NoSeparatorFirst(s, c);
        assert ps[0] != "" && s[0] != c;
      } else {
        assert ps == [""];
      }
    case Some(i) =>
      var rest := s[i + 1..];
      var pr := Pieces(rest, [c]);
      assert ps == [s[..i]] + pr;
      PiecesAllEmpty(rest, c);
      assert s[i..i + 1] == [c];
      if i > 0 {
        assert !OccursAt(s, [c], 0);
        assert s[0..1] == [s[0]];
        assert s[0] != c;
        assert ps[0] != "";
      } else {
        assert s == [c] + rest;
        var psEmpty := forall k :: 0 <= k < |ps| ==> ps[k] == "";
        var prEmpty := forall k :: 0 <= k < |pr| ==> pr[k] == "";
        var sAll := forall k :: 0 <= k < |s| ==> s[k] == c;
        var restAll := forall k :: 0 <= k < |rest| ==> rest[k] == c;
        assert psEmpty <==> prEmpty by {
          assert forall k :: 1 <= k < |ps| ==> ps[k] == pr[k - 1];
          if prEmpty {
            forall k | 0 <= k < |ps| ensures ps[k] == "" {
              if k > 0 { assert ps[k] == pr[k - 1]; }
            }
          }
          if psEmpty {
            forall k | 0 <= k < |pr| ensures pr[k] == "" {
              assert ps[k + 1] == pr[k];
            }
          }
        }
        assert sAll <==> restAll by {
          if restAll {
            forall k | 0 <= k < |s| ensures s[k] == c {
              if k > 0 { assert s[k] == rest[k - 1]; }
            }
          }
          if sAll {
            forall k | 0 <= k < |rest| ensures rest[k] == c {
              assert rest[k] == s[k + 1];
            }
          }
        }
      }
  }

  /** Splitting on one character yields nothing at all exactly when the text
      is non-empty and made of that character only: the case in which
      `split(...)[0]` throws ArrayIndexOutOfBoundsException. */
  lemma SplitEmptyIff(s: string, c: char)
    ensures Split(s, [c]) == [] <==> s != "" && forall k :: 0 <= k < |s| ==> s[k] == c
  {
    PiecesAllEmpty(s, c);
    var ps := Pieces(s, [c]);
    if IndexOf(s, [c]).Some? {
      var r := DropTrailingEmpty(ps);
      if r == [] {
        assert forall k :: 0 <= k < |ps| ==> ps[k] == "";
      }
      assert OccursAt(s, [c], IndexOf(s, [c]).value);
    } else if s != "" {
      assert !OccursAt(s, [c], 0);
      assert s[0..1] == [s[0]];
    }
  }

  // ---------------------------------------------------------------------
  // String.trim

  /** Java's `trim` removes leading and trailing characters up to U+0020:
      `TrimStart` drops the leading ones and keeps the rest. */
  function TrimStart(s: string): (r: string)
    ensures |r| <= |s| && r == s[|s| - |r|..]
    ensures forall k :: 0 <= k < |s| - |r| ==> s[k] <= ' '
    ensures |r| > 0 ==> r[0] > ' '
  {
    if |s| > 0 && s[0] <= ' ' then TrimStart(s[1..]) else s
  }

  /** `TrimEnd` drops the trailing ones and keeps the rest. */
  function TrimEnd(s: string): (r: string)
    ensures |r| <= |s| && r == s[..|r|]
    ensures forall k :: |r| <= k < |s| ==> s[k] <= ' '
    ensures |r| > 0 ==> r[|r| - 1] > ' '
  {
    if |s| > 0 && s[|s| - 1] <= ' ' then TrimEnd(s[..|s| - 1]) else s
  }

  /** `String.trim`: the text between the leading and the trailing run of
      characters up to U+0020, which starts and ends above U+0020. */
  function Trim(s: string): (r: string)
    ensures |r| > 0 ==> r[0] > ' ' && r[|r| - 1] > ' '
    ensures exists pre, post :: s == pre + r + post && IsBlank(pre) && IsBlank(post)
  {
    var t := TrimStart(s);
    var r := TrimEnd(t);
    Surrounded(s, t, r);
    r
  }

  /** A suffix `t` of `s` after blanks, and a prefix `r` of `t` before
      blanks: `s` is `r` with blanks on either side. */
  lemma Surrounded(s: string, t: string, r: string)
    requires |t| <= |s| && t == s[|s| - |t|..] && forall k :: 0 <= k < |s| - |t| ==> s[k] <= ' '
    requires |r| <= |t| && r == t[..|r|] && forall k :: |r| <= k < |t| ==> t[k] <= ' '
    ensures exists pre, post :: s == pre + r + post && IsBlank(pre) && IsBlank(post)
  {
    var pre, post := s[..|s| - |t|], t[|r|..];
    assert t == r + post;
    assert s == pre + t;
    assert pre + (r + post) == pre + r + post;
    assert forall k :: 0 <= k < |pre| ==> pre[k] == s[k];
    assert forall k :: 0 <= k < |post| ==> post[k] == t[|r| + k];
    assert s == pre + r + post && IsBlank(pre) && IsBlank(post);
  }

  /** Every character is a control character or a space. */
  predicate IsBlank(s: string)
  {
    forall k :: 0 <= k < |s| ==> s[k] <= ' '
  }

  lemma {:induction false} TrimStartEmptyIff(s: string)
    ensures TrimStart(s) == "" <==> IsBlank(s)
    decreases |s|
  {
    if |s| > 0 && s[0] <= ' ' {
      TrimStartEmptyIff(s[1..]);
      assert forall k :: 1 <= k < |s| ==> s[k] == s[1..][k - 1];
    }
  }

  lemma {:induction false} TrimEndKeepsNonBlank(s: string)
    requires !IsBlank(s)
    ensures TrimEnd(s) != ""
    decreases |s|
  {
    if |s| > 0 && s[|s| - 1] <= ' ' {
      var k :| 0 <= k < |s| && s[k] > ' ';
      assert s[..|s| - 1][k] == s[k];
      TrimEndKeepsNonBlank(s[..|s| - 1]);
    }
  }

  /** `s.trim().equals("")` holds exactly for blank lines. */
  lemma TrimEmptyIff(s: string)
    ensures Trim(s) == "" <==> IsBlank(s)
  {
    TrimStartEmptyIff(s);
    var t := TrimStart(s);
    if !IsBlank(s) {
      assert t != "" && t[0] > ' ';
      TrimEndKeepsNonBlank(t);
    }
  }

  // ---------------------------------------------------------------------
  // Integer.parseInt(s) in radix 10

  predicate IsDigit(c: char) { '0' <= c <= '9' }

  /** Every character is an ASCII decimal digit. */
  predicate AllDigits(ds: string)
  {
    forall k :: 0 <= k < |ds| ==> IsDigit(ds[k])
  }

  function DigitsValue(ds: string): (v: nat)
    requires AllDigits(ds)
  {
    if ds == [] then 0
    else
      assert IsDigit(ds[|ds| - 1]);
      DigitsValue(ds[..|ds| - 1]) * 10 + (ds[|ds| - 1] as int - '0' as int) as nat
  }

  const MinInt: int := -0x8000_0000
  const MaxInt: int := 0x7fff_ffff

  /** `Integer.parseInt`: an optional sign, at least one decimal digit, and a
      value that fits in 32 bits; `None` stands for NumberFormatException. */
  function ParseInt(s: string): (r: Option<int>)
    ensures r.Some? ==> MinInt <= r.value <= MaxInt
    // a value exactly for an optional sign followed by digits whose value
    // fits; NumberFormatException otherwise
    ensures r.Some? <==> (s != [] &&
      var ds := if s[0] == '-' || s[0] == '+' then s[1..] else s;
      ds != [] && AllDigits(ds) &&
      MinInt <= (if s[0] == '-' then -(DigitsValue(ds) as int) else DigitsValue(ds)) <= MaxInt)
  {
    if s == [] then None
    else
      var signed := s[0] == '-' || s[0] == '+';
      var ds := if signed then s[1..] else s;
      if ds == [] || !AllDigits(ds) then None
      else
        var v: int := if s[0] == '-' then -(DigitsValue(ds) as int) else DigitsValue(ds);
        if MinInt <= v <= MaxInt then Some(v) else None
  }

  /** `parseInt` throws on empty text, on a sign alone, on a character
      other than a digit after the optional sign, and on a value outside
      the 32-bit range. */
  lemma ParseIntRejects(s: string, n: nat)
    ensures ParseInt("") == None && ParseInt("-") == None && ParseInt("+") == None
    ensures (exists k :: 0 < k < |s| && !IsDigit(s[k])) ==> ParseInt(s) == None
    ensures s != [] && s[0] != '-' && s[0] != '+' && !IsDigit(s[0]) ==> ParseInt(s) == None
    ensures n > MaxInt ==> ParseInt(Decimal(n)) == None && ParseInt("+" + Decimal(n)) == None
    ensures n > -MinInt ==> ParseInt("-" + Decimal(n)) == None
  {
    if exists k :: 0 < k < |s| && !IsDigit(s[k]) {
      var k :| 0 < k < |s| && !IsDigit(s[k]);
      if s[0] == '-' || s[0] == '+' {
        assert s[1..][k - 1] == s[k];
      }
    }
    DecimalValue(n);
    var ds := Decimal(n);
    assert ("+" + ds)[1..] == ds && ("-" + ds)[1..] == ds;
  }

  /** The decimal digits of `n`, without sign or leading zeros. */
  function Decimal(n: nat): (ds: string)
    ensures |ds| > 0 && forall k :: 0 <= k < |ds| ==> IsDigit(ds[k])
    decreases n
  {
    if n < 10 then [('0' as int + n) as char]
    else Decimal(n / 10) + [('0' as int + n % 10) as char]
  }

  lemma {:induction false} DecimalValue(n: nat)
    ensures DigitsValue(Decimal(n)) == n
    decreases n
  {
    if n >= 10 {
      DecimalValue(n / 10);
      var ds := Decimal(n);
      assert ds[..|ds| - 1] == Decimal(n / 10);
    }
  }

  /** Round trip: `parseInt` reads back every non-negative 32-bit value
      written in decimal, with or without a leading `+`. */
  lemma ParseIntDecimal(n: nat)
    requires n <= MaxInt
    ensures ParseInt(Decimal(n)) == Some(n)
    ensures ParseInt("+" + Decimal(n)) == Some(n)
  {
    DecimalValue(n);
    var ds := Decimal(n);
    assert !(ds[0] == '-' || ds[0] == '+');
    assert ("+" + ds)[1..] == ds;
  }

  /** A negative value is read back from its minus-signed decimal form. */
  lemma ParseIntNegative(n: nat)
    requires 0 < n <= -MinInt
    ensures ParseInt("-" + Decimal(n)) == Some(-(n as int))
  {
    DecimalValue(n);
    assert ("-" + Decimal(n))[1..] == Decimal(n);
  }
}
