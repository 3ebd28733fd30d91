/**
 * String helpers standing in for the JavaScript built-ins the catalog uses:
 * `String.prototype.trim`, `toLowerCase` (ASCII only), `split` on one
 * character, `includes`, and the default string order of `Array.prototype.sort`.
 */
module Text {

  /** The characters JavaScript's `trim` removes: WhiteSpace and LineTerminator. */
  predicate IsWhitespace(c: char)
  {
    c == '\t' || c == '\n' || c == '\U{000B}' || c == '\U{000C}' || c == '\r' || c == ' ' ||
    c == '\U{00A0}' || c == '\U{1680}' || ('\U{2000}' <= c <= '\U{200A}') ||
    c == '\U{2028}' || c == '\U{2029}' || c == '\U{202F}' || c == '\U{205F}' ||
    c == '\U{3000}' || c == '\U{FEFF}'
  }

  /** Neither end of `s` is whitespace. */
  predicate IsTrimmed(s: string)
  {
    s == [] || (!IsWhitespace(s[0]) && !IsWhitespace(s[|s| - 1]))
  }

  /** Drops leading whitespace. */
  function TrimStart(s: string): string
    decreases |s|
  {
    if s != [] && IsWhitespace(s[0]) then TrimStart(s[1..]) else s
  }

  /** Drops trailing whitespace. */
  function TrimEnd(s: string): string
    decreases |s|
  {
    if s != [] && IsWhitespace(s[|s| - 1]) then TrimEnd(s[..|s| - 1]) else s
  }

  /** `TrimStart` leaves the suffix after a run of whitespace, not starting with whitespace. */
  lemma {:induction false} TrimStartProperties(s: string)
    ensures var r := TrimStart(s);
      |r| <= |s| && r == s[|s| - |r|..] && (r == [] || !IsWhitespace(r[0])) &&
      forall k :: 0 <= k < |s| - |r| ==> IsWhitespace(s[k])
    decreases |s|
  {
    if s != [] && IsWhitespace(s[0]) {
      TrimStartProperties(s[1..]);
    }
  }

  /** `TrimEnd` leaves the prefix before a run of whitespace, not ending with whitespace. */
  lemma {:induction false} TrimEndProperties(s: string)
    ensures var r := TrimEnd(s);
      |r| <= |s| && r == s[..|r|] && (r == [] || !IsWhitespace(r[|r| - 1])) &&
      forall k :: |r| <= k < |s| ==> IsWhitespace(s[k])
    decreases |s|
  {
    if s != [] && IsWhitespace(s[|s| - 1]) {
      TrimEndProperties(s[..|s| - 1]);
    }
  }

  /** JavaScript `s.trim()`. */
  function Trim(s: string): string
  {
    TrimEnd(TrimStart(s))
  }

  /** Everything outside the slice `s[i..i + n]` is whitespace. */
  ghost predicate TrimmedAt(s: string, i: int, n: int)
    requires 0 <= i <= i + n <= |s|
  {
    (forall k :: 0 <= k < i ==> IsWhitespace(s[k])) &&
    (forall k :: i + n <= k < |s| ==> IsWhitespace(s[k]))
  }

  /** The trimmed string is the slice of `s` that starts where `TrimStart` stops. */
  lemma TrimSlice(s: string)
    ensures |TrimStart(s)| <= |s| && |s| - |TrimStart(s)| + |Trim(s)| <= |s|
    ensures Trim(s) == s[|s| - |TrimStart(s)|..|s| - |TrimStart(s)| + |Trim(s)|]
    ensures IsTrimmed(Trim(s))
  {
    var t := TrimStart(s);
    TrimStartProperties(s);
    TrimEndProperties(t);
    SliceOfSuffix(s, |s| - |t|, |Trim(s)|);
  }

  lemma SliceOfSuffix(s: string, i: nat, n: nat)
    requires i + n <= |s|
    ensures s[i..][..n] == s[i..i + n]
  {
  }

  /** What trimming cuts off is whitespace. */
  lemma TrimCutsWhitespace(s: string)
    ensures |TrimStart(s)| <= |s| && |s| - |TrimStart(s)| + |Trim(s)| <= |s|
    ensures TrimmedAt(s, |s| - |TrimStart(s)|, |Trim(s)|)
  {
    var t := TrimStart(s);
    var r := Trim(s);
    TrimStartProperties(s);
    TrimEndProperties(t);
    var i := |s| - |t|;
    forall k | i + |r| <= k < |s|
      ensures IsWhitespace(s[k])
    {
      assert s[k] == t[k - i];
    }
  }

  /** Trimming cuts only whitespace, from either end, and leaves none at the ends. */
  lemma TrimProperties(s: string)
    ensures IsTrimmed(Trim(s))
    ensures exists i :: 0 <= i <= |s| - |Trim(s)| && Trim(s) == s[i..i + |Trim(s)|] && TrimmedAt(s, i, |Trim(s)|)
  {
    TrimSlice(s);
    TrimCutsWhitespace(s);
    var i := |s| - |TrimStart(s)|;
    assert Trim(s) == s[i..i + |Trim(s)|] && TrimmedAt(s, i, |Trim(s)|);
  }

  lemma TrimOfTrimmed(s: string)
    requires IsTrimmed(s)
    ensures Trim(s) == s
  {
  }

  /** Trimming twice is the same as trimming once. */
  lemma TrimIdempotent(s: string)
    ensures Trim(Trim(s)) == Trim(s)
  {
    TrimProperties(s);
    TrimOfTrimmed(Trim(s));
  }

  /** A string made of whitespace only trims to the empty string. */
  lemma {:induction false} TrimAllWhitespace(s: string)
    requires forall k :: 0 <= k < |s| ==> IsWhitespace(s[k])
    ensures Trim(s) == ""
  {
    if s != [] {
      TrimAllWhitespace(s[1..]);
    }
  }

  /** ASCII lower-casing of one character. */
  function LowerChar(c: char): char
  {
    if 'A' <= c <= 'Z' then (c as int + 32) as char else c
  }

  /** `toLowerCase`, restricted to the ASCII letters. */
  function Lower(s: string): string
  {
    seq(|s|, k requires 0 <= k < |s| => LowerChar(s[k]))
  }

  predicate HasNoUpper(s: string)
  {
    forall k :: 0 <= k < |s| ==> !('A' <= s[k] <= 'Z')
  }

  /** Lower-casing keeps the length, leaves no upper-case ASCII letter and is idempotent. */
  lemma LowerProperties(s: string)
    ensures |Lower(s)| == |s|
    ensures HasNoUpper(Lower(s))
    ensures Lower(Lower(s)) == Lower(s)
  {
  }

  /** Lower-casing never introduces or removes whitespace. */
  lemma LowerKeepsWhitespace(c: char)
    ensures IsWhitespace(LowerChar(c)) <==> IsWhitespace(c)
  {
  }

  /** Number of occurrences of `c` in `s`. */
  function Count(s: string, c: char): nat
  {
    if s == [] then 0 else (if s[0] == c then 1 else 0) + Count(s[1..], c)
  }

  /** JavaScript `s.split(sep)` for a one-character separator. */
  function Split(s: string, sep: char): (r: seq<string>)
    ensures |r| >= 1
    ensures forall k :: 0 <= k < |r| ==> sep !in r[k]
    decreases |s|
  {
    if s == [] then [""]
    else if s[0] == sep then [""] + Split(s[1..], sep)
    else
      var rest := Split(s[1..], sep);
      [[s[0]] + rest[0]] + rest[1..]
  }

  /** `parts.join(sep)`, the inverse of `Split`. */
  function Join(parts: seq<string>, sep: char): string
    requires |parts| >= 1
  {
    if |parts| == 1 then parts[0] else parts[0] + [sep] + Join(parts[1..], sep)
  }

  /** Splitting yields one more piece than there are separators. */
  lemma {:induction false} SplitCount(s: string, sep: char)
    ensures |Split(s, sep)| == Count(s, sep) + 1
    decreases |s|
  {
    if s != [] {
      SplitCount(s[1..], sep);
    }
  }

  /** Joining the pieces of a split gives back the original string. */
  lemma {:induction false} JoinSplit(s: string, sep: char)
    ensures Join(Split(s, sep), sep) == s
    decreases |s|
  {
    if s != [] {
      JoinSplit(s[1..], sep);
      var rest := Split(s[1..], sep);
      if s[0] != sep && |rest| > 1 {
        assert Split(s, sep)[1..] == rest[1..];
      }
    }
  }

  /** A join whose first piece is not empty starts with that piece's first character. */
  lemma JoinHead(parts: seq<string>, sep: char)
    requires |parts| >= 1 && parts[0] != []
    ensures Join(parts, sep) == [parts[0][0]] + Join([parts[0][1..]] + parts[1..], sep)
  {
    var head := parts[0];
    assert head == [head[0]] + head[1..];
    var shorter := [head[1..]] + parts[1..];
    assert shorter[1..] == parts[1..];
  }

  /** Putting the first character back on the first piece. */
  lemma ConsFirst(parts: seq<string>)
    requires |parts| >= 1 && parts[0] != []
    ensures parts == [[parts[0][0]] + parts[0][1..]] + parts[1..]
  {
    assert parts[0] == [parts[0][0]] + parts[0][1..];
  }

  /** Splitting a join of separator-free pieces gives back the pieces. */
  lemma {:induction false} SplitJoin(parts: seq<string>, sep: char)
    requires |parts| >= 1
    requires forall k :: 0 <= k < |parts| ==> sep !in parts[k]
    ensures Split(Join(parts, sep), sep) == parts
    decreases |parts|, |parts[0]|
  {
    if parts[0] != [] {
      var head := parts[0];
      var shorter := [head[1..]] + parts[1..];
      assert forall k :: 0 <= k < |shorter| ==> sep !in shorter[k] by {
        assert forall k :: 1 <= k < |shorter| ==> shorter[k] == parts[k];
      }
      SplitJoin(shorter, sep);
      var j := Join(parts, sep);
      JoinHead(parts, sep);
      assert j[0] == head[0] && j[1..] == Join(shorter, sep);
      ConsFirst(parts);
    } else if |parts| > 1 {
      SplitJoin(parts[1..], sep);
      assert Join(parts, sep)[1..] == Join(parts[1..], sep);
    }
  }

  /** `t` occurs in `s` starting at position `i`. */
  predicate OccursAt(s: string, t: string, i: int)
  {
    0 <= i && i + |t| <= |s| && s[i..i + |t|] == t
  }

  /** JavaScript `s.includes(t)`. */
  function Includes(s: string, t: string): (r: bool)
    ensures r <==> exists i :: OccursAt(s, t, i)
    decreases |s|
  {
    if |t| > |s| then false
    else if s[..|t|] == t then assert OccursAt(s, t, 0); true
    else
      var r := Includes(s[1..], t);
      assert r ==> exists i :: OccursAt(s, t, i) by {
        if r {
          var i :| OccursAt(s[1..], t, i);
          assert s[1..][i..i + |t|] == s[i + 1..i + 1 + |t|];
          assert OccursAt(s, t, i + 1);
        }
      }
      assert (exists i :: OccursAt(s, t, i)) ==> r by {
        if exists i :: OccursAt(s, t, i) {
          var i :| OccursAt(s, t, i);
          assert i != 0;
          assert s[1..][i - 1..i - 1 + |t|] == s[i..i + |t|];
          assert OccursAt(s[1..], t, i - 1);
        }
      }
      r
  }

  /** The empty string is included in every string. */
  lemma IncludesEmpty(s: string)
    ensures Includes(s, "")
  {
    assert OccursAt(s, "", 0);
  }

  /** Every string includes itself. */
  lemma IncludesSelf(s: string)
    ensures Includes(s, s)
  {
    assert OccursAt(s, s, 0);
  }

  /**
   * Strict lexicographic order on characters, with a proper prefix first:
   * the order `Array.prototype.sort` applies to strings by default.
   */
  predicate Less(a: string, b: string)
    decreases |a|
  {
    if a == [] then b != []
    else if b == [] then false
    else if a[0] != b[0] then a[0] < b[0]
    else Less(a[1..], b[1..])
  }

  lemma {:induction false} LessIrreflexive(a: string)
    ensures !Less(a, a)
    decreases |a|
  {
    if a != [] {
      LessIrreflexive(a[1..]);
    }
  }

  lemma {:induction false} LessAsymmetric(a: string, b: string)
    ensures Less(a, b) ==> !Less(b, a)
    decreases |a|
  {
    if a != [] && b != [] && a[0] == b[0] {
      LessAsymmetric(a[1..], b[1..]);
    }
  }

  lemma {:induction false} LessTransitive(a: string, b: string, c: string)
    requires Less(a, b) && Less(b, c)
    ensures Less(a, c)
    decreases |a|
  {
    if a != [] && a[0] == b[0] && b[0] == c[0] {
      LessTransitive(a[1..], b[1..], c[1..]);
    }
  }

  lemma {:induction false} LessTotal(a: string, b: string)
    requires a != b
    ensures Less(a, b) || Less(b, a)
    decreases |a|
  {
    if a != [] && b != [] && a[0] == b[0] {
      assert a == [a[0]] + a[1..] && b == [b[0]] + b[1..];
      LessTotal(a[1..], b[1..]);
    }
  }

  /** Each element is strictly less than every later one (so there are no duplicates). */
  predicate StrictlySorted(s: seq<string>)
  {
    forall i, j :: 0 <= i < j < |s| ==> Less(s[i], s[j])
  }

  predicate NoDuplicates(s: seq<string>)
  {
    forall i, j :: 0 <= i < j < |s| ==> s[i] != s[j]
  }

  function Elements(s: seq<string>): set<string>
  {
    set x | x in s
  }

  lemma ElementsEmpty(s: seq<string>)
    ensures Elements(s) == {} <==> s == []
  {
    if s != [] {
      assert s[0] in Elements(s);
    }
  }

  lemma StrictlySortedNoDuplicates(s: seq<string>)
    requires StrictlySorted(s)
    ensures NoDuplicates(s)
  {
    forall i, j | 0 <= i < j < |s|
      ensures s[i] != s[j]
    {
      LessIrreflexive(s[i]);
    }
  }

  /** Everything in `r` is greater than `x` when `x` is below the first element. */
  lemma BelowFirst(x: string, r: seq<string>)
    requires StrictlySorted(r) && r != [] && Less(x, r[0])
    ensures forall k :: 0 <= k < |r| ==> Less(x, r[k])
  {
    forall k | 1 <= k < |r|
      ensures Less(x, r[k])
    {
      LessTransitive(x, r[0], r[k]);
    }
  }

  /** Inserts a new string at its place in a strictly sorted sequence. */
  function Insert(r: seq<string>, x: string): (res: seq<string>)
    requires StrictlySorted(r) && x !in r
    ensures StrictlySorted(res)
    ensures Elements(res) == Elements(r) + {x}
    ensures |res| == |r| + 1
  {
    if r == [] then [x]
    else if Less(x, r[0]) then BelowFirst(x, r); [x] + r
    else
      LessTotal(x, r[0]);
      var tail := Insert(r[1..], x);
      assert Elements(r) == {r[0]} + Elements(r[1..]) by {
        assert r == [r[0]] + r[1..];
      }
      assert forall k :: 0 <= k < |tail| ==> Less(r[0], tail[k]) by {
        forall k | 0 <= k < |tail|
          ensures Less(r[0], tail[k])
        {
          assert tail[k] in Elements(tail);
        }
      }
      [r[0]] + tail
  }

  /**
   * `[...set].sort()` on the distinct strings of a JavaScript `Set`: a strictly
   * sorted sequence of exactly the same strings.
   */
  function SortDistinct(s: seq<string>): (r: seq<string>)
    requires NoDuplicates(s)
    ensures StrictlySorted(r)
    ensures Elements(r) == Elements(s)
    ensures |r| == |s|
  {
    if s == [] then []
    else
      var init := s[..|s| - 1];
      var sorted := SortDistinct(init);
      assert s[|s| - 1] !in Elements(init);
      assert Elements(s) == Elements(init) + {s[|s| - 1]} by {
        assert s == init + [s[|s| - 1]];
      }
      Insert(sorted, s[|s| - 1])
  }

  /**
   * A strictly sorted sequence is determined by its elements, so the result of
   * sorting a set does not depend on the sorting algorithm or the insertion order.
   */
  lemma {:induction false} SortedUnique(a: seq<string>, b: seq<string>)
    requires StrictlySorted(a) && StrictlySorted(b)
    requires Elements(a) == Elements(b)
    ensures a == b
    decreases |a|
  {
    ElementsEmpty(a);
    ElementsEmpty(b);
    if a != [] && b != [] {
      assert a[0] == b[0] by {
        if a[0] != b[0] {
          assert a[0] in Elements(b) && b[0] in Elements(a);
          var i :| 0 <= i < |b| && b[i] == a[0];
          var j :| 0 <= j < |a| && a[j] == b[0];
          LessAsymmetric(a[0], b[0]);
        }
      }
      forall x | x in Elements(a[1..])
        ensures x in Elements(b[1..])
      {
        var i :| 1 <= i < |a| && a[i] == x;
        LessIrreflexive(x);
        assert x != b[0];
        assert x in Elements(b);
      }
      forall x | x in Elements(b[1..])
        ensures x in Elements(a[1..])
      {
        var i :| 1 <= i < |b| && b[i] == x;
        LessIrreflexive(x);
        assert x != a[0];
        assert x in Elements(a);
      }
      SortedUnique(a[1..], b[1..]);
      assert a == [a[0]] + a[1..] && b == [b[0]] + b[1..];
    }
  }
}
