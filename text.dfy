/**
 * String helpers shared by the model: prefix, suffix and substring tests,
 * the lexicographic order used for `>` and `<`, and Ruby's `String#split`
 * with a one-character separator together with `Array#join`.
 */
module Text {

  predicate IsPrefix(p: string, s: string) {
    |p| <= |s| && s[..|p|] == p
  }

  predicate IsSuffix(p: string, s: string) {
    |p| <= |s| && s[|s| - |p|..] == p
  }

  /** `p` occurs somewhere in `s` as a contiguous piece. */
  predicate IsSubstring(p: string, s: string) {
    exists i, j :: 0 <= i <= j <= |s| && s[i..j] == p
  }

  /** A text contains `p` exactly when one of its tails starts with `p`. */
  lemma SubstringAsPrefix(p: string, s: string)
    ensures IsSubstring(p, s) <==> exists i :: 0 <= i <= |s| && IsPrefix(p, s[i..])
  {
    if IsSubstring(p, s) {
      var i, j :| 0 <= i <= j <= |s| && s[i..j] == p;
      assert s[i..][..|p|] == s[i..j];
      assert IsPrefix(p, s[i..]);
    }
    if exists i :: 0 <= i <= |s| && IsPrefix(p, s[i..]) {
      var i :| 0 <= i <= |s| && IsPrefix(p, s[i..]);
      assert s[i..i + |p|] == s[i..][..|p|];
    }
  }

  /** A text containing `v` contains its first character. */
  lemma SubstringFirst(v: string, t: string)
    requires IsSubstring(v, t) && v != []
    ensures v[0] in t
  {
    var i, j :| 0 <= i <= j <= |t| && t[i..j] == v;
    assert t[i..j][0] == t[i];
  }

  /** Strict lexicographic order on character codes. */
  predicate LexLess(a: string, b: string) {
    if a == [] then b != []
    else b != [] && (a[0] < b[0] || (a[0] == b[0] && LexLess(a[1..], b[1..])))
  }

  /** Exactly one of `a == b`, `a < b`, `b < a` holds: the order is strict and total. */
  lemma {:induction false} LexTrichotomy(a: string, b: string)
    ensures a == b || LexLess(a, b) || LexLess(b, a)
    ensures !(LexLess(a, b) && LexLess(b, a))
    ensures a == b ==> !LexLess(a, b)
  {
    if a != [] && b != [] {
      LexTrichotomy(a[1..], b[1..]);
      if a[0] == b[0] && a[1..] == b[1..] {
        assert a == [a[0]] + a[1..] && b == [b[0]] + b[1..];
      }
    }
  }

  /** Transitivity of the lexicographic order. */
  lemma {:induction false} LexTransitive(a: string, b: string, c: string)
    requires LexLess(a, b) && LexLess(b, c)
    ensures LexLess(a, c)
  {
    if a != [] && a[0] == b[0] && b[0] == c[0] {
      LexTransitive(a[1..], b[1..], c[1..]);
    }
  }

  /** Splits `s` at every `sep`, keeping every field, trailing empty ones included. */
  function SplitAll(s: string, sep: char): (r: seq<string>)
    ensures |r| >= 1
    ensures forall k :: 0 <= k < |r| ==> sep !in r[k]
  {
    if s == [] then [""]
    else
      var rest := SplitAll(s[1..], sep);
      if s[0] == sep then [""] + rest else [[s[0]] + rest[0]] + rest[1..]
  }

  /** Ruby drops the trailing empty fields of a split. */
  function DropTrailingEmpty(fields: seq<string>): (r: seq<string>)
    ensures |r| <= |fields| && r == fields[..|r|]
    ensures forall k :: |r| <= k < |fields| ==> fields[k] == ""
    ensures r != [] ==> r[|r| - 1] != ""
  {
    if fields != [] && fields[|fields| - 1] == "" then DropTrailingEmpty(fields[..|fields| - 1])
    else fields
  }

  /** Ruby's `s.split(sep)` for a one-character separator. */
  function RubySplit(s: string, sep: char): (r: seq<string>)
    ensures forall k :: 0 <= k < |r| ==> sep !in r[k]
    ensures r != [] ==> r[|r| - 1] != ""
  {
    DropTrailingEmpty(SplitAll(s, sep))
  }

  /** Ruby's `parts.join(sep)`. */
  function Join(parts: seq<string>, sep: char): (r: string)
    ensures parts != [] && (forall k :: 0 <= k < |parts| ==> sep !in parts[k]) ==> SplitAll(r, sep) == parts
  {
    if |parts| == 0 then ""
    else if |parts| == 1 then SplitAllNoSepIf(parts[0], sep); parts[0]
    else
      var rest := Join(parts[1..], sep);
      SplitAllFirst(parts[0], sep, rest);
      assert parts == [parts[0]] + parts[1..];
      parts[0] + [sep] + rest
  }

  lemma SplitAllNoSepIf(p: string, sep: char)
    ensures sep !in p ==> SplitAll(p, sep) == [p]
  {
    if sep !in p {
      SplitAllNoSep(p, sep);
    }
  }

  /** Splitting `a + sep + b`, where `a` has no separator, gives `a` and then the fields of `b`. */
  lemma {:induction false} SplitAllFirst(a: string, sep: char, b: string)
    ensures sep !in a ==> SplitAll(a + [sep] + b, sep) == [a] + SplitAll(b, sep)
  {
    if sep !in a {
      if a == [] {
        assert a + [sep] + b == [sep] + b;
        assert ([sep] + b)[1..] == b;
      } else {
        assert (a + [sep] + b)[1..] == a[1..] + [sep] + b;
        SplitAllFirst(a[1..], sep, b);
        assert [a[0]] + a[1..] == a;
      }
    }
  }

  /** Joining the fields of a split with the same separator gives the string back. */
  lemma {:induction false} JoinSplitAll(s: string, sep: char)
    ensures Join(SplitAll(s, sep), sep) == s
  {
    if s != [] {
      var rest := SplitAll(s[1..], sep);
      JoinSplitAll(s[1..], sep);
      if s[0] == sep {
        assert Join([""] + rest, sep) == "" + [sep] + Join(rest, sep) by {
          assert ([""] + rest)[1..] == rest;
        }
      } else if |rest| == 1 {
        assert SplitAll(s, sep) == [[s[0]] + rest[0]];
      } else {
        var r := SplitAll(s, sep);
        assert r[1..] == rest[1..];
        assert Join(rest, sep) == rest[0] + [sep] + Join(rest[1..], sep);
      }
    }
  }

  /** A string without the separator is a single field. */
  lemma {:induction false} SplitAllNoSep(p: string, sep: char)
    requires sep !in p
    ensures SplitAll(p, sep) == [p]
  {
    if p != [] {
      SplitAllNoSep(p[1..], sep);
      assert [p[0]] + p[1..] == p;
    }
  }

  /** Splitting `c + sep + p`, where `p` has no separator, gives the fields of `c` and then `p`. */
  lemma {:induction false} SplitAllLast(c: string, sep: char, p: string)
    requires sep !in p
    ensures SplitAll(c + [sep] + p, sep) == SplitAll(c, sep) + [p]
  {
    if c == [] {
      assert c + [sep] + p == [sep] + p;
      assert ([sep] + p)[1..] == p;
      SplitAllNoSep(p, sep);
    } else {
      assert (c + [sep] + p)[1..] == c[1..] + [sep] + p;
      SplitAllLast(c[1..], sep, p);
    }
  }

  predicate AllEmpty(fields: seq<string>) {
    forall k :: 0 <= k < |fields| ==> fields[k] == ""
  }

  predicate AllChar(s: string, c: char) {
    forall i :: 0 <= i < |s| ==> s[i] == c
  }

  /** Dropping trailing empty fields leaves nothing exactly when every field is empty. */
  lemma {:induction false} DropTrailingEmptyNil(fields: seq<string>)
    ensures DropTrailingEmpty(fields) == [] <==> AllEmpty(fields)
  {
    if fields != [] && fields[|fields| - 1] == "" {
      DropTrailingEmptyNil(fields[..|fields| - 1]);
      assert forall k :: 0 <= k < |fields| - 1 ==> fields[..|fields| - 1][k] == fields[k];
    }
  }

  /** Every field of a split is empty exactly when the string is made of separators only. */
  lemma {:induction false} SplitAllEmptyFields(s: string, sep: char)
    ensures AllEmpty(SplitAll(s, sep)) <==> AllChar(s, sep)
  {
    if s != [] {
      SplitAllEmptyFields(s[1..], sep);
      var rest := SplitAll(s[1..], sep);
      if s[0] == sep {
        var r := SplitAll(s, sep);
        assert r == [""] + rest;
        if forall k :: 0 <= k < |r| ==> r[k] == "" {
          assert forall k :: 0 <= k < |rest| ==> rest[k] == r[k + 1];
          assert forall i :: 0 <= i < |s| ==> s[i] == sep by {
            forall i | 1 <= i < |s| ensures s[i] == sep {
              assert s[i] == s[1..][i - 1];
            }
          }
        }
        if forall i :: 0 <= i < |s| ==> s[i] == sep {
          assert forall i :: 0 <= i < |s[1..]| ==> s[1..][i] == s[i + 1];
          assert forall k :: 0 <= k < |r| ==> r[k] == "" by {
            forall k | 1 <= k < |r| ensures r[k] == "" {
              assert r[k] == rest[k - 1];
            }
          }
        }
      } else {
        assert SplitAll(s, sep)[0] != "";
      }
    }
  }
}
