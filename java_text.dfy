/**
  The `java.lang.String` operations the resource utilities build on, written out as the
  JDK defines them: `trim`, `isBlank`, `indexOf`, `lastIndexOf`, `startsWith`, `split`
  with limit 0 and `String.join`. Strings are sequences of Unicode scalar values.
 */
module JavaText {

  /** A char that `String.trim` removes: one whose code is at most U+0020. */
  predicate IsTrimmable(c: char) {
    c <= ' '
  }

  /** `Character.isWhitespace`, the test behind `String.isBlank`. */
  predicate IsWhitespace(c: char) {
    var n := c as int;
    (0x09 <= n <= 0x0D) || (0x1C <= n <= 0x20) || n == 0x1680
    || (0x2000 <= n <= 0x2006) || (0x2008 <= n <= 0x200A)
    || n == 0x2028 || n == 0x2029 || n == 0x205F || n == 0x3000
  }

  /**
    `String.isBlank`: empty or whitespace only. No visible char below U+1680, and so none of
    '/', '.' and '!', is whitespace.
   */
  predicate IsBlank(s: string): (r: bool)
    ensures s == [] ==> r
    ensures (exists i :: 0 <= i < |s| && 0x20 < s[i] as int < 0x1680) ==> !r
    ensures r ==> '/' !in s && '.' !in s && '!' !in s
  {
    forall i :: 0 <= i < |s| ==> IsWhitespace(s[i])
  }

  /** `String.startsWith`. */
  predicate StartsWith(s: string, prefix: string) {
    |prefix| <= |s| && s[..|prefix|] == prefix
  }

  /** Drops the trimmable chars at the front. */
  function TrimStart(s: string): (r: string)
    ensures |r| <= |s| && r == s[|s| - |r|..]
    ensures r == [] || !IsTrimmable(r[0])
    ensures forall i :: 0 <= i < |s| - |r| ==> IsTrimmable(s[i])
  {
    if s != [] && IsTrimmable(s[0]) then TrimStart(s[1..]) else s
  }

  /** Drops the trimmable chars at the back. */
  function TrimEnd(s: string): (r: string)
    ensures |r| <= |s| && r == s[..|r|]
    ensures r == [] || !IsTrimmable(r[|r| - 1])
    ensures forall i :: |r| <= i < |s| ==> IsTrimmable(s[i])
  {
    if s != [] && IsTrimmable(s[|s| - 1]) then TrimEnd(s[..|s| - 1]) else s
  }

  /** `String.trim`. */
  function Trim(s: string): (r: string)
    ensures r == [] || (!IsTrimmable(r[0]) && !IsTrimmable(r[|r| - 1]))
    ensures r == [] <==> forall i :: 0 <= i < |s| ==> IsTrimmable(s[i])
    ensures s == [] || (!IsTrimmable(s[0]) && !IsTrimmable(s[|s| - 1])) ==> r == s
  {
    TrimEnd(TrimStart(s))
  }

  /** Trimming only removes chars: a char absent from the string is absent from its trim. */
  lemma TrimKeepsAbsent(s: string, c: char)
    requires c !in s
    ensures c !in Trim(s)
  {
    var front := TrimStart(s);
    assert front == s[|s| - |front|..];
    assert c !in front;
  }

  /** Trimming in front of a char that is kept: the char stays last. */
  lemma {:induction false} TrimStartAppend(x: string, c: char)
    requires !IsTrimmable(c)
    ensures TrimStart(x + [c]) == TrimStart(x) + [c]
  {
    if x != [] && IsTrimmable(x[0]) {
      assert (x + [c])[1..] == x[1..] + [c];
      TrimStartAppend(x[1..], c);
    }
  }

  /** Appending a kept char to a string shifts `trim` by that char alone. */
  lemma TrimAppend(x: string, c: char)
    requires !IsTrimmable(c)
    requires x == [] || !IsTrimmable(x[|x| - 1])
    ensures Trim(x + [c]) == Trim(x) + [c]
  {
    TrimStartAppend(x, c);
    var front := TrimStart(x);
    assert front == [] || front[|front| - 1] == x[|x| - 1];
    assert TrimEnd(front) == front;
    var appended := front + [c];
    assert appended[|appended| - 1] == c;
    assert TrimEnd(appended) == appended;
  }

  /** `String.indexOf(char)`: the first position of `c`, or -1. */
  function IndexOf(s: string, c: char): (r: int)
    ensures -1 <= r < |s|
    ensures r == -1 <==> c !in s
    ensures 0 <= r ==> s[r] == c && c !in s[..r]
  {
    if s == [] then -1
    else if s[0] == c then 0
    else
      var i := IndexOf(s[1..], c);
      if i == -1 then -1 else i + 1
  }

  /** `String.lastIndexOf(char)`: the last position of `c`, or -1. */
  function LastIndexOf(s: string, c: char): (r: int)
    ensures -1 <= r < |s|
    ensures r == -1 <==> c !in s
    ensures 0 <= r ==> s[r] == c && forall j :: r < j < |s| ==> s[j] != c
  {
    if s == [] then -1
    else if s[|s| - 1] == c then |s| - 1
    else
      var front := s[..|s| - 1];
      assert forall j :: 0 <= j < |front| ==> front[j] == s[j];
      LastIndexOf(front, c)
  }

  /** The last occurrence of `c` is the one before a `c`-free tail. */
  lemma {:induction false} LastIndexOfBeforeTail(a: string, c: char, t: string)
    requires c !in t
    ensures LastIndexOf(a + [c] + t, c) == |a|
  {
    var s := a + [c] + t;
    if t != [] {
      var n := |t|;
      assert s[|s| - 1] == t[n - 1];
      assert s[..|s| - 1] == a + [c] + t[..n - 1];
      LastIndexOfBeforeTail(a, c, t[..n - 1]);
    }
  }

  /** Concatenation regrouped, as a step of its own. */
  lemma AppendAssociative<T>(a: seq<T>, b: seq<T>, c: seq<T>)
    ensures a + (b + c) == (a + b) + c
  {
  }

  /** Every piece of `s` between occurrences of `c`, empty pieces included. */
  function SplitAll(s: string, c: char): (r: seq<string>)
    ensures |r| >= 1
    ensures forall i :: 0 <= i < |r| ==> c !in r[i]
  {
    if s == [] then [[]]
    else
      var rest := SplitAll(s[1..], c);
      if s[0] == c then [[]] + rest else [[s[0]] + rest[0]] + rest[1..]
  }

  /** `String.join`: the parts with `c` between consecutive ones. */
  function Join(parts: seq<string>, c: char): (r: string)
    ensures |parts| >= 1 ==> StartsWith(r, parts[0])
    ensures |parts| >= 2 ==> |parts[0]| < |r| && r[|parts[0]|] == c
  {
    if |parts| == 0 then []
    else if |parts| == 1 then parts[0]
    else parts[0] + [c] + Join(parts[1..], c)
  }

  /** The pieces without the empty ones at the end. */
  function DropTrailingEmpty(parts: seq<string>): (r: seq<string>)
    ensures |r| <= |parts| && r == parts[..|r|]
    ensures r == [] || r[|r| - 1] != []
    ensures forall i :: |r| <= i < |parts| ==> parts[i] == []
  {
    if parts != [] && parts[|parts| - 1] == [] then DropTrailingEmpty(parts[..|parts| - 1]) else parts
  }

  /**
    `String.split` on a one-char pattern with limit 0: the pieces between occurrences of
    `c`, trailing empty pieces removed; a string without `c` (the empty string among them)
    comes back alone.
   */
  function Split(s: string, c: char): (r: seq<string>)
    ensures forall i :: 0 <= i < |r| ==> c !in r[i]
    ensures c !in s ==> r == [s]
    ensures r == [] || r[|r| - 1] != [] || s == []
  {
    if c !in s then SplitWithout(s, c); [s]
    else DropTrailingEmpty(SplitAll(s, c))
  }

  /** A string without the separator splits into itself alone. */
  lemma {:induction false} SplitWithout(s: string, c: char)
    requires c !in s
    ensures SplitAll(s, c) == [s]
  {
    if s != [] {
      assert c !in s[1..];
      SplitWithout(s[1..], c);
      assert [s[0]] + s[1..] == s;
    }
  }

  /** Joining the pieces gives back the string: nothing is lost by splitting. */
  lemma {:induction false} JoinSplitAll(s: string, c: char)
    ensures Join(SplitAll(s, c), c) == s
  {
    if s != [] {
      var rest := SplitAll(s[1..], c);
      JoinSplitAll(s[1..], c);
      if s[0] == c {
        assert SplitAll(s, c) == [[]] + rest;
        assert ([[]] + rest)[1..] == rest;
      } else {
        var first := [s[0]] + rest[0];
        assert SplitAll(s, c) == [first] + rest[1..];
        if |rest| > 1 {
          assert ([first] + rest[1..])[1..] == rest[1..];
          assert Join(rest, c) == rest[0] + [c] + Join(rest[1..], c);
        }
      }
    }
  }

  /** A separator-free prefix followed by the separator is the first piece. */
  lemma {:induction false} SplitAllAfterPiece(a: string, c: char, b: string)
    requires c !in a
    ensures SplitAll(a + [c] + b, c) == [a] + SplitAll(b, c)
  {
    if a == [] {
      assert ([c] + b)[1..] == b;
    } else {
      assert (a + [c] + b)[1..] == a[1..] + [c] + b;
      assert c !in a[1..];
      SplitAllAfterPiece(a[1..], c, b);
      assert [a[0]] + a[1..] == a;
    }
  }

  /** A separator at the very end only ends the one piece before it: the empty piece after it is dropped. */
  lemma SplitTrailingSeparator(head: string, c: char)
    requires head != [] && c !in head
    ensures Split(head + [c], c) == [head]
  {
    var s := head + [c];
    assert s == head + [c] + [];
    SplitAllAfterPiece(head, c, []);
    assert SplitAll(s, c) == [head, []];
    assert s[|head|] == c;
    assert [head, []][..1] == [head];
    assert DropTrailingEmpty([head, []]) == DropTrailingEmpty([head]);
    assert DropTrailingEmpty([head]) == [head];
  }

  /** The last piece of a split is the text after the last separator. */
  lemma {:induction false} SplitAllLastPiece(a: string, c: char, t: string)
    requires c !in t
    ensures |SplitAll(a + [c] + t, c)| >= 2
    ensures SplitAll(a + [c] + t, c)[|SplitAll(a + [c] + t, c)| - 1] == t
  {
    if a == [] {
      SplitAllAfterPiece([], c, t);
      assert [] + [c] + t == [c] + t;
      SplitWithout(t, c);
    } else {
      var s := a + [c] + t;
      assert s[1..] == a[1..] + [c] + t;
      SplitAllLastPiece(a[1..], c, t);
    }
  }

  /** The last piece `split` keeps is the text after the last separator, when that is not empty. */
  lemma SplitLastPiece(a: string, c: char, t: string)
    requires t != [] && c !in t
    ensures var parts := Split(a + [c] + t, c);
            |parts| >= 2 && parts[|parts| - 1] == t
  {
    var s := a + [c] + t;
    assert s[|a|] == c;
    SplitAllLastPiece(a, c, t);
    var all := SplitAll(s, c);
    assert DropTrailingEmpty(all) == all;
    assert Split(s, c) == all;
  }

  /** Splitting undoes joining when no part holds the separator. */
  lemma {:induction false} SplitAllJoin(parts: seq<string>, c: char)
    requires |parts| >= 1
    requires forall i :: 0 <= i < |parts| ==> c !in parts[i]
    ensures SplitAll(Join(parts, c), c) == parts
  {
    if |parts| == 1 {
      SplitWithout(parts[0], c);
    } else {
      SplitAllJoin(parts[1..], c);
      SplitAllAfterPiece(parts[0], c, Join(parts[1..], c));
      assert [parts[0]] + parts[1..] == parts;
    }
  }

  /** Every piece is empty exactly when the string is the separator repeated. */
  lemma {:induction false} SplitAllEmptyPieces(s: string, c: char)
    ensures (forall i :: 0 <= i < |SplitAll(s, c)| ==> SplitAll(s, c)[i] == [])
            <==> (forall i :: 0 <= i < |s| ==> s[i] == c)
  {
    if s != [] {
      SplitAllEmptyPieces(s[1..], c);
      var rest := SplitAll(s[1..], c);
      if s[0] == c {
        var all := SplitAll(s, c);
        assert all == [[]] + rest;
        if forall i :: 0 <= i < |all| ==> all[i] == [] {
          forall i | 0 <= i < |rest| ensures rest[i] == [] {
            assert rest[i] == all[i + 1];
          }
          forall i | 0 <= i < |s| ensures s[i] == c {
            if i > 0 { assert s[i] == s[1..][i - 1]; }
          }
        }
        if forall i :: 0 <= i < |s| ==> s[i] == c {
          forall i | 0 <= i < |s| - 1 ensures s[1..][i] == c {
            assert s[1..][i] == s[i + 1];
          }
          forall i | 0 <= i < |all| ensures all[i] == [] {
            if i > 0 { assert all[i] == rest[i - 1]; }
          }
        }
      } else {
        assert SplitAll(s, c)[0] != [];
      }
    }
  }

  /** `split` leaves nothing exactly when the string is the separator repeated. */
  lemma SplitEmpty(s: string, c: char)
    ensures Split(s, c) == [] <==> s != [] && forall i :: 0 <= i < |s| ==> s[i] == c
  {
    if c in s {
      var all := SplitAll(s, c);
      var r := Split(s, c);
      assert r == DropTrailingEmpty(all);
      SplitAllEmptyPieces(s, c);
      if r != [] {
        assert all[|r| - 1] == r[|r| - 1] != [];
      }
    } else if s != [] {
      assert s[0] != c;
    }
  }

  /** Joining a head before at least one more piece puts one separator after the head. */
  lemma JoinCons(head: string, rest: seq<string>, c: char)
    requires |rest| >= 1
    ensures Join([head] + rest, c) == head + [c] + Join(rest, c)
  {
    assert ([head] + rest)[1..] == rest;
  }

  /** Pieces that are separator-free, the last one non-empty, split back out of their join. */
  lemma SplitJoin(parts: seq<string>, c: char)
    requires |parts| >= 1 && parts[|parts| - 1] != []
    requires forall i :: 0 <= i < |parts| ==> c !in parts[i]
    ensures Split(Join(parts, c), c) == parts
  {
    var s := Join(parts, c);
    SplitAllJoin(parts, c);
    if c !in s {
      SplitWithout(s, c);
    }
  }

  /** Dropping trailing empty pieces after a head: the head stays unless it and everything after it is empty. */
  lemma {:induction false} DropTrailingEmptyCons(head: string, parts: seq<string>)
    ensures DropTrailingEmpty([head] + parts) ==
              if head == [] && DropTrailingEmpty(parts) == [] then [] else [head] + DropTrailingEmpty(parts)
    decreases |parts|
  {
    if parts == [] {
      assert [head] + parts == [head];
      assert [head][..0] == [];
    } else if parts[|parts| - 1] == [] {
      var init := parts[..|parts| - 1];
      assert ([head] + parts)[..|parts|] == [head] + init;
      DropTrailingEmptyCons(head, init);
    }
  }

  /**
    A separator-free head, a separator and a join of separator-free pieces, empty ones
    included: the split is the head and the pieces, trailing empty ones dropped.
   */
  lemma SplitPieces(head: string, parts: seq<string>, c: char)
    requires c !in head
    requires forall i :: 0 <= i < |parts| ==> c !in parts[i]
    ensures Split(head + [c] + Join(parts, c), c) == DropTrailingEmpty([head] + parts)
  {
    var s := head + [c] + Join(parts, c);
    assert s[|head|] == c;
    SplitAllAfterPiece(head, c, Join(parts, c));
    if parts == [] {
      assert SplitAll(s, c) == [head, []];
      assert [head, []][..1] == [head] == [head] + parts;
    } else {
      SplitAllJoin(parts, c);
    }
  }

  /** A separator-free head, a separator and a join of pieces split into the head and the pieces. */
  lemma SplitAfterHead(head: string, parts: seq<string>, c: char)
    requires c !in head
    requires |parts| >= 1 && parts[|parts| - 1] != []
    requires forall i :: 0 <= i < |parts| ==> c !in parts[i]
    ensures Split(head + [c] + Join(parts, c), c) == [head] + parts
  {
    var sections := [head] + parts;
    assert sections[1..] == parts;
    JoinCons(head, parts, c);
    assert sections[|sections| - 1] == parts[|parts| - 1];
    forall i | 0 <= i < |sections|
      ensures c !in sections[i]
    {
      if i > 0 {
        assert sections[i] == parts[i - 1];
      }
    }
    SplitJoin(sections, c);
  }

  /** A join whose first part is not blank is not blank. */
  lemma JoinNotBlank(parts: seq<string>, c: char)
    requires |parts| >= 1 && !IsBlank(parts[0])
    ensures !IsBlank(Join(parts, c))
    ensures Join(parts, c)[0] == parts[0][0]
  {
    var j := Join(parts, c);
    var i :| 0 <= i < |parts[0]| && !IsWhitespace(parts[0][i]);
    if |parts| > 1 {
      assert j[i] == parts[0][i];
    }
  }
}
