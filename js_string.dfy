/** The JavaScript string operations the frontend relies on: `trim`,
    `toLowerCase`, `includes` and the relational operator `<`. */
module JsString {

  /** ECMAScript WhiteSpace and LineTerminator code points, the set `trim`
      strips. No digit, letter or sign is whitespace, so trimming never
      removes content. */
  predicate IsWhitespace(c: char)
    ensures c == ' ' || c == '\t' || c == '\n' || c == '\r' ==> IsWhitespace(c)
    ensures IsWhitespace(c) ==> !('0' <= c <= '9') && !('a' <= c <= 'z') && !('A' <= c <= 'Z')
    ensures IsWhitespace(c) ==> c != '-' && c != '+'
  {
    c == '\t' || c == '\n' || c == '\U{0B}' || c == '\U{0C}' || c == '\r' || c == ' '
    || c == '\U{A0}' || c == '\U{1680}' || ('\U{2000}' <= c <= '\U{200A}')
    || c == '\U{2028}' || c == '\U{2029}' || c == '\U{202F}' || c == '\U{205F}'
    || c == '\U{3000}' || c == '\U{FEFF}'
  }

  /** Drops leading whitespace: the result is the suffix of `s` that starts at
      its first non-whitespace character. */
  function TrimStart(s: string): (r: string)
    ensures |r| <= |s| && r == s[|s| - |r|..]
    ensures forall i :: 0 <= i < |s| - |r| ==> IsWhitespace(s[i])
    ensures r == [] || !IsWhitespace(r[0])
  {
    if s != [] && IsWhitespace(s[0]) then TrimStart(s[1..]) else s
  }

  /** Drops trailing whitespace: the result is the prefix of `s` that ends at
      its last non-whitespace character. */
  function TrimEnd(s: string): (r: string)
    ensures |r| <= |s| && r == s[..|r|]
    ensures forall i :: |r| <= i < |s| ==> IsWhitespace(s[i])
    ensures r == [] || !IsWhitespace(r[|r| - 1])
  {
    if s != [] && IsWhitespace(s[|s| - 1]) then TrimEnd(s[..|s| - 1]) else s
  }

  /** Trimming the end of a string that starts with content keeps that start. */
  lemma TrimEndKeepsHead(t: string)
    requires t != [] && !IsWhitespace(t[0])
    ensures TrimEnd(t) != [] && TrimEnd(t)[0] == t[0]
  {
  }

  /** Leading whitespace is all `TrimStart` removes. */
  lemma TrimStartAfterWhitespace(w: string, t: string)
    requires forall i :: 0 <= i < |w| ==> IsWhitespace(w[i])
    requires t == [] || !IsWhitespace(t[0])
    ensures TrimStart(w + t) == t
  {
    if w != [] {
      assert (w + t)[1..] == w[1..] + t;
      TrimStartAfterWhitespace(w[1..], t);
    } else {
      assert w + t == t;
    }
  }

  /** `String.prototype.trim`. */
  function Trim(s: string): (r: string)
    ensures |r| <= |s|
    ensures r == [] <==> forall i :: 0 <= i < |s| ==> IsWhitespace(s[i])
    ensures r != [] ==> !IsWhitespace(r[0]) && !IsWhitespace(r[|r| - 1])
  {
    var t := TrimStart(s);
    if t == [] then []
    else
      TrimEndKeepsHead(t);
      TrimEnd(t)
  }

  /** `trim` removes exactly the leading and the trailing whitespace: the
      result occurs in `s` where its leading whitespace ends, everything
      before that is whitespace, and so is everything after the result. */
  lemma TrimIsInfix(s: string)
    ensures var k := |s| - |TrimStart(s)|;
            OccursAt(s, Trim(s), k)
            && (forall i :: 0 <= i < k ==> IsWhitespace(s[i]))
            && (forall i :: k + |Trim(s)| <= i < |s| ==> IsWhitespace(s[i]))
  {
    TrimEndOfStart(s);
    TrimmedInfix(s, TrimStart(s), Trim(s));
  }

  /** Trimming the start of `s` and then the end leaves `r`, which occurs in
      `s` where the leading whitespace ends and has only whitespace after it. */
  lemma TrimmedInfix(s: string, t: string, r: string)
    requires t == TrimStart(s) && r == TrimEnd(t)
    ensures OccursAt(s, r, |s| - |t|)
    ensures forall i :: |s| - |t| + |r| <= i < |s| ==> IsWhitespace(s[i])
  {
    InfixOfSuffix(s, t, r);
  }

  /** A prefix `r` of a suffix `t` of `s` occurs in `s` where `t` starts,
      and when `t` has only whitespace after `r`, so has `s`. */
  lemma InfixOfSuffix(s: string, t: string, r: string)
    requires |t| <= |s| && t == s[|s| - |t|..]
    requires |r| <= |t| && r == t[..|r|]
    requires forall i :: |r| <= i < |t| ==> IsWhitespace(t[i])
    ensures OccursAt(s, r, |s| - |t|)
    ensures forall i :: |s| - |t| + |r| <= i < |s| ==> IsWhitespace(s[i])
  {
    var k := |s| - |t|;
    assert s[k..k + |r|] == s[k..][..|r|];
    forall i | k + |r| <= i < |s| ensures IsWhitespace(s[i]) {
      assert s[i] == t[i - k];
    }
  }

  /** `trim` is the end-trimmed form of the start-trimmed string. */
  lemma TrimEndOfStart(s: string)
    ensures Trim(s) == TrimEnd(TrimStart(s))
  {
  }

  /** Trimming twice is trimming once. */
  lemma TrimIdempotent(s: string)
    ensures Trim(Trim(s)) == Trim(s)
  {
    var r := Trim(s);
    if r != [] {
      assert TrimStart(r) == r;
      assert TrimEnd(r) == r;
    }
  }

  /** `toLowerCase` on one character, restricted to the ASCII letters. */
  function LowerChar(c: char): (d: char)
    ensures 'A' <= c <= 'Z' ==> 'a' <= d <= 'z' && d as int - c as int == 32
    ensures !('A' <= c <= 'Z') ==> d == c
  {
    if 'A' <= c <= 'Z' then (c as int + 32) as char else c
  }

  /** `String.prototype.toLowerCase`, character by character. */
  function Lower(s: string): (r: string)
    ensures |r| == |s|
    ensures forall i :: 0 <= i < |s| ==> r[i] == LowerChar(s[i])
    ensures forall i :: 0 <= i < |r| ==> !('A' <= r[i] <= 'Z')
  {
    seq(|s|, i requires 0 <= i < |s| => LowerChar(s[i]))
  }

  /** Lower-casing an already lower-cased string changes nothing. */
  lemma LowerIdempotent(s: string)
    ensures Lower(Lower(s)) == Lower(s)
  {
  }

  /** True when `needle` occurs in `hay` at position `k`. */
  ghost predicate OccursAt(hay: string, needle: string, k: int)
  {
    0 <= k && k + |needle| <= |hay| && hay[k..k + |needle|] == needle
  }

  /** `String.prototype.includes`: does `needle` occur somewhere in `hay`? */
  function Includes(hay: string, needle: string): (b: bool)
    ensures b <==> exists k :: OccursAt(hay, needle, k)
    decreases |hay|
  {
    if needle <= hay then
      assert OccursAt(hay, needle, 0);
      true
    else if hay == [] then
      assert forall k :: !OccursAt(hay, needle, k);
      false
    else
      var b := Includes(hay[1..], needle);
      assert b ==> exists k :: OccursAt(hay, needle, k) by {
        if b {
          var k :| OccursAt(hay[1..], needle, k);
          assert hay[1..][k..k + |needle|] == hay[k + 1..k + 1 + |needle|];
          assert OccursAt(hay, needle, k + 1);
        }
      }
      assert (exists k :: OccursAt(hay, needle, k)) ==> b by {
        if exists k :: OccursAt(hay, needle, k) {
          var k :| OccursAt(hay, needle, k);
          if k > 0 {
            assert hay[1..][k - 1..k - 1 + |needle|] == hay[k..k + |needle|];
            assert OccursAt(hay[1..], needle, k - 1);
          }
        }
      }
      b
  }

  /** The empty string occurs in every string, so an empty search matches everything. */
  lemma IncludesEmpty(hay: string)
    ensures Includes(hay, "")
  {
  }

  /** The relational operator `a < b` on strings: lexicographic order over
      the characters, where a proper prefix comes first. */
  predicate Less(a: string, b: string)
    ensures a < b ==> Less(a, b)
    ensures b <= a ==> !Less(a, b)
  {
    if a == [] then b != []
    else if b == [] then false
    else if a[0] != b[0] then a[0] < b[0]
    else
      assert a < b ==> a[1..] < b[1..];
      assert b <= a ==> b[1..] <= a[1..];
      Less(a[1..], b[1..])
  }

  /** Position `k` is the first at which `a` and `b` differ. */
  ghost predicate FirstDifference(a: string, b: string, k: int)
  {
    0 <= k < |a| && k < |b| && a[..k] == b[..k] && a[k] != b[k]
  }

  /** Past a common first character, the first difference moves one place. */
  lemma FirstDifferenceShift(a: string, b: string, k: int)
    requires a != [] && b != [] && a[0] == b[0]
    ensures FirstDifference(a, b, k) <==> k > 0 && FirstDifference(a[1..], b[1..], k - 1)
  {
    if 0 < k < |a| && k < |b| {
      var p, q := a[1..][..k - 1], b[1..][..k - 1];
      assert a[..k] == [a[0]] + p && b[..k] == [b[0]] + q;
      assert a[..k] == b[..k] ==> p == q by {
        if a[..k] == b[..k] {
          assert p == a[..k][1..] && q == b[..k][1..];
        }
      }
      assert a[k] == a[1..][k - 1] && b[k] == b[1..][k - 1];
    }
  }

  /** `Less` is the usual lexicographic order: either `a` is a proper prefix
      of `b`, or at the first position where they differ `a` has the smaller
      character. */
  lemma {:induction false} LessIsLexicographic(a: string, b: string)
    ensures Less(a, b) <==> a < b || exists k :: FirstDifference(a, b, k) && a[k] < b[k]
  {
    if a == [] || b == [] {
    } else if a[0] != b[0] {
      assert FirstDifference(a, b, 0);
    } else {
      var a', b' := a[1..], b[1..];
      LessIsLexicographic(a', b');
      assert a < b <==> a' < b' by {
        assert a == [a[0]] + a' && b == [b[0]] + b';
      }
      if exists k :: FirstDifference(a', b', k) && a'[k] < b'[k] {
        var k :| FirstDifference(a', b', k) && a'[k] < b'[k];
        FirstDifferenceShift(a, b, k + 1);
      }
      if exists k :: FirstDifference(a, b, k) && a[k] < b[k] {
        var k :| FirstDifference(a, b, k) && a[k] < b[k];
        FirstDifferenceShift(a, b, k);
        assert FirstDifference(a', b', k - 1) && a'[k - 1] < b'[k - 1];
      }
    }
  }

  /** No string is less than itself. */
  lemma {:induction false} LessIrreflexive(a: string)
    ensures !Less(a, a)
  {
    if a != [] { LessIrreflexive(a[1..]); }
  }

  /** `<` never holds in both directions. */
  lemma {:induction false} LessAsymmetric(a: string, b: string)
    ensures !(Less(a, b) && Less(b, a))
  {
    if a != [] && b != [] && a[0] == b[0] { LessAsymmetric(a[1..], b[1..]); }
  }

  /** `<` is transitive. */
  lemma {:induction false} LessTransitive(a: string, b: string, c: string)
    requires Less(a, b) && Less(b, c)
    ensures Less(a, c)
  {
    if a != [] && a[0] == b[0] && b[0] == c[0] {
      LessTransitive(a[1..], b[1..], c[1..]);
    }
  }

  /** Two strings are equal or ordered one way or the other. */
  lemma {:induction false} LessTotal(a: string, b: string)
    ensures a == b || Less(a, b) || Less(b, a)
  {
    if a != [] && b != [] && a[0] == b[0] {
      assert a == [a[0]] + a[1..] && b == [b[0]] + b[1..];
      LessTotal(a[1..], b[1..]);
    }
  }
}
