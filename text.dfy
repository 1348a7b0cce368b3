/** The Python `str` operations the scraper uses, on `string` (= `seq<char>`):
    substring test, `replace`, `split`, `join`, `strip`, `lower`, `int` and
    `str` on naturals. Each is defined the way CPython computes it (a
    left-to-right scan), and the lemmas below relate them to each other. */
module Text {
  import opened Wrappers

  /** `t` occurs in `s` starting at offset `i`. */
  predicate OccursAt(s: string, t: string, i: nat) {
    i + |t| <= |s| && s[i..i + |t|] == t
  }

  predicate StartsWith(s: string, t: string) {
    |t| <= |s| && s[..|t|] == t
  }

  predicate EndsWith(s: string, t: string) {
    |t| <= |s| && s[|s| - |t|..] == t
  }

  /** Python's `t in s`, as a scan from the left. */
  function Contains(s: string, t: string): bool
    decreases |s|
  {
    StartsWith(s, t) || (s != [] && Contains(s[1..], t))
  }

  /** The scan finds `t` exactly when `t` occurs somewhere in `s`. */
  lemma {:induction false} ContainsIff(s: string, t: string)
    ensures Contains(s, t) <==> exists i: nat :: OccursAt(s, t, i)
    decreases |s|
  {
    if StartsWith(s, t) {
      assert OccursAt(s, t, 0);
    } else if s != [] {
      ContainsIff(s[1..], t);
      if Contains(s[1..], t) {
        var i: nat :| OccursAt(s[1..], t, i);
        assert s[i + 1..i + 1 + |t|] == s[1..][i..i + |t|];
        assert OccursAt(s, t, i + 1);
      } else {
        forall i: nat | OccursAt(s, t, i) ensures false {
          if i > 0 {
            assert s[1..][i - 1..i - 1 + |t|] == s[i..i + |t|];
            assert OccursAt(s[1..], t, i - 1);
          }
        }
      }
    }
  }

  /** For a one-character needle the substring test is membership. */
  lemma {:induction false} ContainsChar(s: string, c: char)
    ensures Contains(s, [c]) <==> c in s
    decreases |s|
  {
    if s != [] {
      ContainsChar(s[1..], c);
      assert s == [s[0]] + s[1..];
    }
  }

  // ---------------------------------------------------------------------
  // str.replace
  // ---------------------------------------------------------------------

  /** Python's `s.replace(pat, rep)`: every non-overlapping occurrence of
      `pat`, found from the left, is replaced by `rep`. */
  function ReplaceAll(s: string, pat: string, rep: string): string
    requires pat != []
    decreases |s|
  {
    if StartsWith(s, pat) then rep + ReplaceAll(s[|pat|..], pat, rep)
    else if s == [] then []
    else [s[0]] + ReplaceAll(s[1..], pat, rep)
  }

  /** A text starting with the pattern has it replaced first. */
  lemma ReplaceAtFront(pat: string, s: string, rep: string)
    requires pat != []
    ensures ReplaceAll(pat + s, pat, rep) == rep + ReplaceAll(s, pat, rep)
  {
    assert (pat + s)[..|pat|] == pat;
    assert (pat + s)[|pat|..] == s;
  }

  /** A prefix without the pattern's first character is kept as it is. */
  lemma {:induction false} ReplaceHeadFree(a: string, b: string, pat: string, rep: string)
    requires pat != [] && pat[0] !in a
    ensures ReplaceAll(a + b, pat, rep) == a + ReplaceAll(b, pat, rep)
    decreases |a|
  {
    if a == [] {
      assert a + b == b;
    } else {
      assert (a + b)[0] == a[0];
      assert (a + b)[1..] == a[1..] + b;
      ReplaceHeadFree(a[1..], b, pat, rep);
      assert a == [a[0]] + a[1..];
    }
  }

  /** A text shorter than the pattern is kept as it is. */
  lemma {:induction false} ReplaceShorter(s: string, pat: string, rep: string)
    requires pat != [] && |s| < |pat|
    ensures ReplaceAll(s, pat, rep) == s
    decreases |s|
  {
    if s != [] {
      ReplaceShorter(s[1..], pat, rep);
      assert s == [s[0]] + s[1..];
    }
  }

  /** A one-character replacement works character by character. */
  lemma {:induction false} ReplaceCharAppend(a: string, b: string, c: char, rep: string)
    ensures ReplaceAll(a + b, [c], rep) == ReplaceAll(a, [c], rep) + ReplaceAll(b, [c], rep)
    decreases |a|
  {
    if a != [] {
      ReplaceCharAppend(a[1..], b, c, rep);
      assert (a + b)[1..] == a[1..] + b;
    } else {
      assert a + b == b;
    }
  }

  /** Replacing a character that does not occur changes nothing. */
  lemma {:induction false} ReplaceCharAbsent(s: string, c: char, rep: string)
    requires c !in s
    ensures ReplaceAll(s, [c], rep) == s
    decreases |s|
  {
    if s != [] {
      ReplaceCharAbsent(s[1..], c, rep);
      assert s == [s[0]] + s[1..];
    }
  }

  /** Replacing a character by a character maps the string position by position. */
  lemma {:induction false} ReplaceCharByChar(s: string, c: char, d: char)
    ensures |ReplaceAll(s, [c], [d])| == |s|
    ensures forall i :: 0 <= i < |s| ==> ReplaceAll(s, [c], [d])[i] == if s[i] == c then d else s[i]
    decreases |s|
  {
    if s != [] {
      ReplaceCharByChar(s[1..], c, d);
    }
  }

  /** A character-for-character replacement gives the text that differs
      from `s` exactly where `s` has `c`. */
  lemma ReplaceCharGives(s: string, c: char, d: char, t: string)
    requires |t| == |s|
    requires forall i :: 0 <= i < |s| ==> t[i] == if s[i] == c then d else s[i]
    ensures ReplaceAll(s, [c], [d]) == t
  {
    ReplaceCharByChar(s, c, d);
  }

  // ---------------------------------------------------------------------
  // str.split and str.join
  // ---------------------------------------------------------------------

  /** Python's `s.split(sep)` for a non-empty separator: the pieces between
      the non-overlapping occurrences of `sep`, found from the left. */
  function Split(s: string, sep: string): (parts: seq<string>)
    requires sep != []
    ensures |parts| >= 1
    decreases |s|
  {
    if StartsWith(s, sep) then [""] + Split(s[|sep|..], sep)
    else if s == [] then [""]
    else
      var rest := Split(s[1..], sep);
      [[s[0]] + rest[0]] + rest[1..]
  }

  /** Python's `sep.join(parts)`. */
  function Join(sep: string, parts: seq<string>): string
  {
    if |parts| == 0 then ""
    else if |parts| == 1 then parts[0]
    else parts[0] + sep + Join(sep, parts[1..])
  }

  /** The last element of a non-empty list (Python's `xs[-1]`). */
  function Last<T>(xs: seq<T>): T
    requires xs != []
  {
    xs[|xs| - 1]
  }

  /** Joining with one more part appends the separator and that part. */
  lemma {:induction false} JoinSnoc(sep: string, parts: seq<string>, p: string)
    requires parts != []
    ensures Join(sep, parts + [p]) == Join(sep, parts) + sep + p
    decreases |parts|
  {
    if |parts| > 1 {
      JoinSnoc(sep, parts[1..], p);
      assert (parts + [p])[1..] == parts[1..] + [p];
    }
  }

  /** Extending the first part by one character extends the joined text by it. */
  lemma JoinConsHead(sep: string, x: char, parts: seq<string>)
    requires parts != []
    ensures Join(sep, [[x] + parts[0]] + parts[1..]) == [x] + Join(sep, parts)
  {
    var q := [[x] + parts[0]] + parts[1..];
    if |parts| > 1 {
      assert q[1..] == parts[1..];
    }
  }

  /** `sep.join(s.split(sep)) == s`. */
  lemma {:induction false} SplitJoin(s: string, sep: string)
    requires sep != []
    ensures Join(sep, Split(s, sep)) == s
    decreases |s|
  {
    if StartsWith(s, sep) {
      SplitJoin(s[|sep|..], sep);
      var rest := Split(s[|sep|..], sep);
      assert ([""] + rest)[1..] == rest;
      assert s == sep + s[|sep|..];
    } else if s != [] {
      SplitJoin(s[1..], sep);
      JoinConsHead(sep, s[0], Split(s[1..], sep));
      assert s == [s[0]] + s[1..];
    }
  }

  /** `s.replace(pat, rep) == rep.join(s.split(pat))`. */
  lemma {:induction false} ReplaceIsJoinSplit(s: string, pat: string, rep: string)
    requires pat != []
    ensures ReplaceAll(s, pat, rep) == Join(rep, Split(s, pat))
    decreases |s|
  {
    if StartsWith(s, pat) {
      ReplaceIsJoinSplit(s[|pat|..], pat, rep);
      var rest := Split(s[|pat|..], pat);
      assert Split(s, pat) == [""] + rest;
      JoinEmptyHead(rep, rest);
    } else if s != [] {
      ReplaceIsJoinSplit(s[1..], pat, rep);
      var rest := Split(s[1..], pat);
      assert Split(s, pat) == [[s[0]] + rest[0]] + rest[1..];
      JoinConsHead(rep, s[0], rest);
    }
  }

  /** An empty first part contributes only its separator. */
  lemma JoinEmptyHead(sep: string, parts: seq<string>)
    requires parts != []
    ensures Join(sep, [""] + parts) == sep + Join(sep, parts)
  {
    assert ([""] + parts)[1..] == parts;
  }

  /** `s.split(sep)` has a second element exactly when `sep in s`. */
  lemma {:induction false} SplitHasSecond(s: string, sep: string)
    requires sep != []
    ensures |Split(s, sep)| >= 2 <==> Contains(s, sep)
    decreases |s|
  {
    if !StartsWith(s, sep) && s != [] {
      SplitHasSecond(s[1..], sep);
    }
  }

  /** Without an occurrence of `sep`, `s.split(sep) == [s]`. */
  lemma {:induction false} SplitAbsent(s: string, sep: string)
    requires sep != []
    requires !Contains(s, sep)
    ensures Split(s, sep) == [s]
    decreases |s|
  {
    if s != [] {
      SplitAbsent(s[1..], sep);
      assert s == [s[0]] + s[1..];
    }
  }

  /** With exactly one occurrence of `sep`, and none starting inside `x`,
      `(x + sep + d).split(sep) == [x, d]`. The condition on `x` is needed
      for separators that overlap themselves: `" of of 3".split(" of ")` is
      `["", "of 3"]`. */
  lemma {:induction false} SplitOnce(x: string, sep: string, d: string)
    requires sep != []
    requires !Contains(d, sep)
    requires !Contains(x + sep[..|sep| - 1], sep)
    ensures Split(x + sep + d, sep) == [x, d]
    decreases |x|
  {
    var s := x + sep + d;
    if x == [] {
      assert s == sep + d && StartsWith(s, sep) && s[|sep|..] == d;
      SplitAbsent(d, sep);
    } else {
      assert !StartsWith(s, sep) by {
        assert |sep| <= |x + sep[..|sep| - 1]|;
        assert s[..|sep|] == (x + sep[..|sep| - 1])[..|sep|];
        ContainsIff(x + sep[..|sep| - 1], sep);
        assert !OccursAt(x + sep[..|sep| - 1], sep, 0);
      }
      assert s[1..] == x[1..] + sep + d;
      assert x[1..] + sep[..|sep| - 1] == (x + sep[..|sep| - 1])[1..];
      SplitOnce(x[1..], sep, d);
      assert x == [x[0]] + x[1..];
    }
  }

  /** `s.split(c)[-1]` is the longest suffix of `s` free of `c`: it ends
      `s`, holds no `c`, follows the last `c` when `c` occurs, and is all
      of `s` when `c` does not. */
  lemma {:induction false} SplitLastChar(s: string, c: char)
    ensures var piece := Last(Split(s, [c]));
      && c !in piece
      && EndsWith(s, piece)
      && (c in s ==> EndsWith(s, [c] + piece))
      && (c !in s ==> piece == s)
    decreases |s|
  {
    if s != [] {
      var t := s[1..];
      assert s == [s[0]] + t;
      SplitLastChar(t, c);
      ContainsChar(t, c);
      var parts := Split(t, [c]);
      var piece := Last(parts);
      forall u: string | EndsWith(t, u) ensures EndsWith(s, u) {
        assert s[|s| - |u|..] == t[|t| - |u|..];
      }
      if s[0] == c {
        SplitSepCons(t, c);
        LastCons("", parts);
        if c !in t {
          SplitAbsent(t, [c]);
          assert s == [c] + piece;
        }
      } else if c in t {
        SplitOtherCons(s[0], t, c);
        SplitHasSecond(t, [c]);
        LastCons([s[0]] + parts[0], parts[1..]);
        assert Last(parts[1..]) == piece;
      } else {
        SplitOtherCons(s[0], t, c);
        SplitAbsent(t, [c]);
        assert Split(s, [c]) == [s];
      }
    }
  }

  /** A non-empty `b` is its front and its last element, in `b` and in `a + b`. */
  lemma SnocParts<T>(a: seq<T>, b: seq<T>)
    requires b != []
    ensures b == b[..|b| - 1] + [b[|b| - 1]]
    ensures a + b == (a + b[..|b| - 1]) + [b[|b| - 1]]
  {
  }

  /** A non-empty sequence is its front, which agrees with it, and its last element. */
  lemma SnocSplit<T>(b: seq<T>)
    requires b != []
    ensures b == b[..|b| - 1] + [b[|b| - 1]]
    ensures forall i :: 0 <= i < |b| - 1 ==> b[..|b| - 1][i] == b[i]
  {
  }

  /** Appending to both sides of a concatenation. */
  lemma SnocAssoc<T>(p: seq<T>, q: seq<T>, r: seq<T>, s: seq<T>)
    requires p == q + r
    ensures p + s == q + (r + s)
  {
  }

  /** A sequence that agrees with `want` up to its last element, and on the
      last element, is `want`. */
  lemma SnocPointwise<T>(all: seq<T>, prefix: seq<T>, e: T, want: seq<T>)
    requires all == prefix + [e]
    requires |want| == |prefix| + 1 && want[|prefix|] == e
    requires forall i :: 0 <= i < |prefix| ==> prefix[i] == want[i]
    ensures all == want
  {
  }

  /** A new first element does not change the last one. */
  lemma LastCons<T>(h: T, xs: seq<T>)
    requires xs != []
    ensures Last([h] + xs) == Last(xs)
  {
  }

  /** A leading separator character closes an empty first piece. */
  lemma SplitSepCons(t: string, c: char)
    ensures Split([c] + t, [c]) == [""] + Split(t, [c])
  {
    assert ([c] + t)[1..] == t;
    assert StartsWith([c] + t, [c]);
  }

  /** Any other leading character joins the first piece. */
  lemma SplitOtherCons(x: char, t: string, c: char)
    requires x != c
    ensures Split([x] + t, [c]) == [[x] + Split(t, [c])[0]] + Split(t, [c])[1..]
  {
    assert ([x] + t)[1..] == t;
    assert !StartsWith([x] + t, [c]);
  }

  /** Putting a character in front of two texts whose pieces agree up to a
      common tail keeps them agreeing. */
  lemma SplitConsKeepsTail(x: char, u: string, v: string, rest: seq<string>, c: char)
    requires Split(v, [c]) == Split(u, [c]) + rest
    ensures Split([x] + v, [c]) == Split([x] + u, [c]) + rest
  {
    if x == c {
      SepConsKeepsTail(u, v, rest, c);
    } else {
      OtherConsKeepsTail(x, u, v, rest, c);
    }
  }

  lemma SepConsKeepsTail(u: string, v: string, rest: seq<string>, c: char)
    requires Split(v, [c]) == Split(u, [c]) + rest
    ensures Split([c] + v, [c]) == Split([c] + u, [c]) + rest
  {
    SplitSepCons(v, c);
    SplitSepCons(u, c);
    ConsKeepsTail("", Split(u, [c]), Split(v, [c]), rest);
  }

  lemma OtherConsKeepsTail(x: char, u: string, v: string, rest: seq<string>, c: char)
    requires x != c
    requires Split(v, [c]) == Split(u, [c]) + rest
    ensures Split([x] + v, [c]) == Split([x] + u, [c]) + rest
  {
    SplitOtherCons(x, v, c);
    SplitOtherCons(x, u, c);
    HeadKeepsTail([x], Split(u, [c]), Split(v, [c]), rest);
  }

  lemma ConsKeepsTail<T>(h: T, p: seq<T>, q: seq<T>, r: seq<T>)
    requires q == p + r
    ensures [h] + q == [h] + p + r
  {
  }

  lemma HeadKeepsTail(x: string, p: seq<string>, q: seq<string>, r: seq<string>)
    requires p != [] && q == p + r
    ensures [x + q[0]] + q[1..] == [x + p[0]] + p[1..] + r
  {
    assert q[0] == p[0];
    assert q[1..] == p[1..] + r;
  }

  /** Splitting on a character distributes over an occurrence of it. */
  lemma {:induction false} SplitAroundChar(a: string, b: string, c: char)
    ensures Split(a + [c] + b, [c]) == Split(a, [c]) + Split(b, [c])
    decreases |a|
  {
    if a == [] {
      assert a + [c] + b == [c] + b;
      SplitSepCons(b, c);
      assert Split(a, [c]) == [""];
    } else {
      SplitAroundChar(a[1..], b, c);
      SplitConsKeepsTail(a[0], a[1..], a[1..] + [c] + b, Split(b, [c]), c);
      assert [a[0]] + (a[1..] + [c] + b) == a + [c] + b;
      assert [a[0]] + a[1..] == a;
    }
  }

  /** Splitting a `c`-join of parts free of `c` gives the parts back. */
  lemma {:induction false} JoinSplitChar(parts: seq<string>, c: char)
    requires parts != []
    requires forall i :: 0 <= i < |parts| ==> c !in parts[i]
    ensures Split(Join([c], parts), [c]) == parts
    decreases |parts|
  {
    ContainsChar(parts[0], c);
    SplitAbsent(parts[0], [c]);
    if |parts| > 1 {
      JoinSplitChar(parts[1..], c);
      SplitAroundChar(parts[0], Join([c], parts[1..]), c);
      assert parts == [parts[0]] + parts[1..];
    }
  }

  // ---------------------------------------------------------------------
  // str.strip
  // ---------------------------------------------------------------------

  /** The characters for which Python's `str.isspace` holds; `s.strip()`
      with no argument removes these. */
  const PyWhitespace: set<char> := {
    '\t', '\n', '\U{000B}', '\U{000C}', '\r', '\U{001C}', '\U{001D}', '\U{001E}', '\U{001F}',
    ' ', '\U{0085}', '\U{00A0}', '\U{1680}',
    '\U{2000}', '\U{2001}', '\U{2002}', '\U{2003}', '\U{2004}', '\U{2005}',
    '\U{2006}', '\U{2007}', '\U{2008}', '\U{2009}', '\U{200A}',
    '\U{2028}', '\U{2029}', '\U{202F}', '\U{205F}', '\U{3000}'
  }

  /** The number of leading characters of `s` that belong to `cs`. */
  function LeadingCount(s: string, cs: set<char>): (k: nat)
    ensures k <= |s|
    ensures forall i :: 0 <= i < k ==> s[i] in cs
    ensures k < |s| ==> s[k] !in cs
    decreases |s|
  {
    if s != [] && s[0] in cs then 1 + LeadingCount(s[1..], cs) else 0
  }

  /** The number of trailing characters of `s` that belong to `cs`. */
  function TrailingCount(s: string, cs: set<char>): (k: nat)
    ensures k <= |s|
    ensures forall i :: |s| - k <= i < |s| ==> s[i] in cs
    ensures k < |s| ==> s[|s| - 1 - k] !in cs
    decreases |s|
  {
    if s != [] && s[|s| - 1] in cs then 1 + TrailingCount(s[..|s| - 1], cs) else 0
  }

  /** Python's `s.strip(chars)`: drop the longest prefix, then the longest
      suffix, made of characters in `cs`. The result is a piece of `s`
      whose end characters are not in `cs`, and it is `s` itself exactly
      when the end characters of `s` are not in `cs`. */
  function StripSet(s: string, cs: set<char>): (r: string)
    ensures |r| <= |s|
    ensures r != [] ==> r[0] !in cs && r[|r| - 1] !in cs
    ensures r == s <==> (s == [] || (s[0] !in cs && s[|s| - 1] !in cs))
    ensures exists i: nat :: OccursAt(s, r, i)
  {
    var k := LeadingCount(s, cs);
    var t := s[k..];
    var r := t[..|t| - TrailingCount(t, cs)];
    assert OccursAt(s, r, k);
    r
  }

  /** Python's `s.strip()`. */
  function Strip(s: string): string {
    StripSet(s, PyWhitespace)
  }

  // ---------------------------------------------------------------------
  // str.lower
  // ---------------------------------------------------------------------

  predicate IsUpper(c: char) {
    'A' <= c <= 'Z'
  }

  function LowerChar(c: char): (d: char)
    ensures !IsUpper(d)
    ensures !IsUpper(c) ==> d == c
  {
    if IsUpper(c) then (c as int + 32) as char else c
  }

  /** Python's `s.lower()` on the ASCII letters. */
  function Lower(s: string): (r: string)
    ensures |r| == |s|
    ensures forall i :: 0 <= i < |s| ==> r[i] == LowerChar(s[i])
    decreases |s|
  {
    if s == [] then [] else [LowerChar(s[0])] + Lower(s[1..])
  }

  /** A string without upper-case letters is its own lower case. */
  lemma LowerNoUpper(s: string)
    requires forall i :: 0 <= i < |s| ==> !IsUpper(s[i])
    ensures Lower(s) == s
  {
  }

  /** `t` is the lower case of `s` when it agrees with it character by character. */
  lemma LowerPointwise(s: string, t: string)
    requires |s| == |t|
    requires forall i :: 0 <= i < |s| ==> LowerChar(s[i]) == t[i]
    ensures Lower(s) == t
  {
  }

  // ---------------------------------------------------------------------
  // Removing characters
  // ---------------------------------------------------------------------

  /** `s` with every character that belongs to `cs` removed, the rest in order. */
  function Discard(s: string, cs: set<char>): (r: string)
    ensures |r| <= |s|
    ensures forall i :: 0 <= i < |r| ==> r[i] !in cs
    decreases |s|
  {
    if s == [] then []
    else (if s[0] in cs then [] else [s[0]]) + Discard(s[1..], cs)
  }

  /** Every character kept by `Discard` comes from `s`. */
  lemma {:induction false} DiscardKeeps(s: string, cs: set<char>)
    ensures forall c :: c in Discard(s, cs) ==> c in s
    decreases |s|
  {
    if s != [] {
      DiscardKeeps(s[1..], cs);
      assert forall c :: c in s[1..] ==> c in s;
    }
  }

  /** Removing a character with `replace(c, '')` is discarding it. */
  lemma {:induction false} ReplaceCharIsDiscard(s: string, c: char)
    ensures ReplaceAll(s, [c], "") == Discard(s, {c})
    decreases |s|
  {
    if s != [] {
      ReplaceCharIsDiscard(s[1..], c);
    }
  }

  /** Discarding works piece by piece. */
  lemma {:induction false} DiscardAppend(a: string, b: string, cs: set<char>)
    ensures Discard(a + b, cs) == Discard(a, cs) + Discard(b, cs)
    decreases |a|
  {
    if a == [] {
      assert a + b == b;
    } else {
      DiscardAppend(a[1..], b, cs);
      var head := if a[0] in cs then [] else [a[0]];
      calc {
        Discard(a + b, cs);
        { assert (a + b)[0] == a[0] && (a + b)[1..] == a[1..] + b; }
        head + Discard(a[1..] + b, cs);
        head + (Discard(a[1..], cs) + Discard(b, cs));
        (head + Discard(a[1..], cs)) + Discard(b, cs);
      }
    }
  }

  /** Discarding `cs` and then `c` is discarding `cs + {c}`. */
  lemma {:induction false} DiscardTwice(s: string, cs: set<char>, c: char)
    ensures Discard(Discard(s, cs), {c}) == Discard(s, cs + {c})
    decreases |s|
  {
    if s != [] {
      DiscardTwice(s[1..], cs, c);
      var head := if s[0] in cs then [] else [s[0]];
      DiscardAppend(head, Discard(s[1..], cs), {c});
      if s[0] !in cs {
        assert Discard(head, {c}) == (if s[0] == c then [] else [s[0]]) by {
          assert head[1..] == [];
        }
      }
    }
  }

  /** Discarding characters that do not occur changes nothing. */
  lemma {:induction false} DiscardNone(s: string, cs: set<char>)
    requires forall i :: 0 <= i < |s| ==> s[i] !in cs
    ensures Discard(s, cs) == s
    decreases |s|
  {
    if s != [] {
      DiscardNone(s[1..], cs);
      assert s == [s[0]] + s[1..];
    }
  }

  /** A discarded character splits the work in two. */
  lemma DiscardAround(a: string, c: char, b: string, cs: set<char>)
    requires c in cs
    ensures Discard(a + [c] + b, cs) == Discard(a, cs) + Discard(b, cs)
  {
    DiscardOne(c, cs);
    DiscardAppend(a, [c], cs);
    DiscardAppend(a + [c], b, cs);
  }

  /** Discarding a single character that belongs to `cs` leaves nothing. */
  lemma DiscardOne(c: char, cs: set<char>)
    requires c in cs
    ensures Discard([c], cs) == []
  {
    assert [c][1..] == [];
  }

  // ---------------------------------------------------------------------
  // int(s) and str(n) on naturals
  // ---------------------------------------------------------------------

  predicate IsDigit(c: char) {
    '0' <= c <= '9'
  }

  predicate AllDigits(s: string) {
    forall i :: 0 <= i < |s| ==> IsDigit(s[i])
  }

  function DigitChar(d: nat): (c: char)
    requires d < 10
    ensures IsDigit(c) && c as int - '0' as int == d
  {
    ('0' as int + d) as char
  }

  /** Python's `str(n)` for a natural number. */
  function NatToDecimal(n: nat): (s: string)
    ensures s != [] && AllDigits(s)
  {
    if n < 10 then [DigitChar(n)] else NatToDecimal(n / 10) + [DigitChar(n % 10)]
  }

  /** The value of a string of decimal digits. */
  function DecimalValue(s: string): nat
    requires AllDigits(s)
  {
    if s == [] then 0
    else 10 * DecimalValue(s[..|s| - 1]) + (s[|s| - 1] as int - '0' as int)
  }

  /** Python's `int(s)` on strings of ASCII digits; `None` where it raises. */
  function ParseNat(s: string): (r: Option<nat>)
    ensures r.Some? <==> s != [] && AllDigits(s)
  {
    if s != [] && AllDigits(s) then Some(DecimalValue(s)) else None
  }

  /** `int(str(n)) == n`. */
  lemma {:induction false} ParseNatToDecimal(n: nat)
    ensures ParseNat(NatToDecimal(n)) == Some(n)
  {
    var s := NatToDecimal(n);
    if n >= 10 {
      ParseNatToDecimal(n / 10);
      assert s[..|s| - 1] == NatToDecimal(n / 10);
      assert DecimalValue(s) == 10 * (n / 10) + n % 10;
    } else {
      assert s[..|s| - 1] == [];
    }
  }
}
