/** The Python string operations the dashboard uses: `str.isspace`,
    `str.strip()`, `sub in s`, `s.split(sep)`, and the code-point order in
    which pandas sorts string keys. */
module Text {

  /** Python's `str.isspace()` for one character. */
  predicate IsSpace(c: char)
  {
    || ('\t' <= c <= '\r')
    || ('\U{1C}' <= c <= '\U{20}')
    || c == '\U{85}' || c == '\U{A0}' || c == '\U{1680}'
    || ('\U{2000}' <= c <= '\U{200A}')
    || c == '\U{2028}' || c == '\U{2029}' || c == '\U{202F}' || c == '\U{205F}' || c == '\U{3000}'
  }

  predicate AllSpace(s: string)
  {
    forall k :: 0 <= k < |s| ==> IsSpace(s[k])
  }

  /** Neither the first nor the last character is white space. */
  predicate Trimmed(s: string)
  {
    s == [] || (!IsSpace(s[0]) && !IsSpace(s[|s| - 1]))
  }

  /** The number of white-space characters `s` starts with. */
  function LeadingSpaces(s: string): (n: nat)
    ensures n <= |s|
    ensures forall k :: 0 <= k < n ==> IsSpace(s[k])
    ensures n == |s| || !IsSpace(s[n])
  {
    if s != [] && IsSpace(s[0]) then
      var m := LeadingSpaces(s[1..]);
      assert forall k :: 1 <= k < m + 1 ==> s[k] == s[1..][k - 1];
      m + 1
    else 0
  }

  /** The number of white-space characters `s` ends with. */
  function TrailingSpaces(s: string): (n: nat)
    ensures n <= |s|
    ensures forall k :: |s| - n <= k < |s| ==> IsSpace(s[k])
    ensures n == |s| || !IsSpace(s[|s| - n - 1])
  {
    if s != [] && IsSpace(s[|s| - 1]) then
      var m := TrailingSpaces(s[..|s| - 1]);
      assert forall k :: |s| - 1 - m <= k < |s| - 1 ==> s[k] == s[..|s| - 1][k];
      m + 1
    else 0
  }

  /** Where the text `strip` keeps ends: white space after the leading run
      is trimmed from the end. */
  function StripStop(s: string): (j: nat)
    ensures LeadingSpaces(s) <= j <= |s|
  {
    |s| - TrailingSpaces(s[LeadingSpaces(s)..])
  }

  /** Python's `str.strip()`: `s` less its leading and trailing white space. */
  function Strip(s: string): (r: string)
    ensures Trimmed(r)
    ensures |r| <= |s|
  {
    var i := LeadingSpaces(s);
    var j := StripStop(s);
    if i < j then
      var t := s[i..];
      assert t[|t| - TrailingSpaces(t) - 1] == s[j - 1];
      s[i..j]
    else
      s[i..j]
  }

  /** What Strip removes is white space at either end, and nothing else. */
  lemma StripRemovesOnlySpace(s: string)
    ensures exists i :: 0 <= i <= |s| - |Strip(s)| && s[i..i + |Strip(s)|] == Strip(s)
                        && AllSpace(s[..i]) && AllSpace(s[i + |Strip(s)|..])
  {
    var i := LeadingSpaces(s);
    var j := StripStop(s);
    var t := s[i..];
    assert |Strip(s)| == j - i;
    assert forall k :: 0 <= k < i ==> s[..i][k] == s[k];
    assert forall k :: 0 <= k < |s| - j ==> s[j..][k] == t[j - i + k];
  }

  /** Stripping a string with no white space at either end changes nothing. */
  lemma StripTrimmed(s: string)
    requires Trimmed(s)
    ensures Strip(s) == s
  {
    assert LeadingSpaces(s) == 0;
    assert s[0..] == s;
  }

  /** Strip only removes white space, so it keeps every other character. */
  lemma StripKeeps(s: string, c: char)
    requires !IsSpace(c)
    ensures c in Strip(s) <==> c in s
  {
    var i := LeadingSpaces(s);
    var j := StripStop(s);
    var t := s[i..];
    var r := Strip(s);
    assert r == s[i..j];
    if c in s {
      var k :| 0 <= k < |s| && s[k] == c;
      assert !IsSpace(s[k]);
      assert t[k - i] == s[k];
      assert r[k - i] == c;
    }
    if c in r {
      var k :| 0 <= k < |r| && r[k] == c;
      assert s[i + k] == c;
    }
  }

  /** `sub` occurs in `s` starting at position `k`. */
  predicate OccursAt(s: string, sub: string, k: int)
  {
    0 <= k && k + |sub| <= |s| && s[k..k + |sub|] == sub
  }

  /** Python's `sub in s`. */
  ghost predicate Contains(s: string, sub: string)
  {
    exists k :: OccursAt(s, sub, k)
  }

  lemma OccursAtTail(s: string, sub: string, k: int)
    requires s != [] && 0 <= k
    ensures OccursAt(s[1..], sub, k) <==> OccursAt(s, sub, k + 1)
  {
    if 0 <= k && k + |sub| <= |s[1..]| {
      assert s[1..][k..k + |sub|] == s[k + 1..k + 1 + |sub|];
    }
  }

  lemma OccursAtChar(s: string, c: char, k: int)
    ensures OccursAt(s, [c], k) <==> 0 <= k < |s| && s[k] == c
  {
    if 0 <= k < |s| {
      assert s[k..k + 1] == [s[k]];
    }
  }

  /** For a one-character `sub`, Python's `sub in s` is membership. */
  lemma ContainsChar(s: string, c: char)
    ensures Contains(s, [c]) <==> c in s
  {
    if c in s {
      var k :| 0 <= k < |s| && s[k] == c;
      OccursAtChar(s, c, k);
    }
    if Contains(s, [c]) {
      var k :| OccursAt(s, [c], k);
      OccursAtChar(s, c, k);
    }
  }

  /** When `sub` does not start `s`, it occurs in `s` only where it occurs
      in the tail of `s`, one position later. */
  lemma NoneInTail(s: string, sub: string)
    requires s != [] && !OccursAt(s, sub, 0) && !Contains(s[1..], sub)
    ensures !Contains(s, sub)
  {
    forall k | OccursAt(s, sub, k) ensures false {
      OccursAtTail(s, sub, k - 1);
    }
  }

  lemma FirstInTail(s: string, sub: string, t: nat)
    requires s != [] && !OccursAt(s, sub, 0) && OccursAt(s[1..], sub, t)
    requires forall k :: 0 <= k < t ==> !OccursAt(s[1..], sub, k)
    ensures OccursAt(s, sub, t + 1)
    ensures forall k :: 0 <= k < t + 1 ==> !OccursAt(s, sub, k)
  {
    OccursAtTail(s, sub, t);
    forall k | 1 <= k < t + 1 ensures !OccursAt(s, sub, k) {
      OccursAtTail(s, sub, k - 1);
    }
  }

  /** Python's `s.find(sub)`: the first position of `sub` in `s`, or -1. */
  function IndexOf(s: string, sub: string): (r: int)
    ensures -1 <= r <= |s|
    ensures r >= 0 ==> OccursAt(s, sub, r)
    ensures r >= 0 ==> forall k :: 0 <= k < r ==> !OccursAt(s, sub, k)
    ensures r < 0 <==> !Contains(s, sub)
  {
    if |s| < |sub| then
      assert forall k :: !OccursAt(s, sub, k);
      -1
    else if s[..|sub|] == sub then
      assert OccursAt(s, sub, 0);
      0
    else
      var t := IndexOf(s[1..], sub);
      assert !OccursAt(s, sub, 0);
      if t < 0 then
        NoneInTail(s, sub);
        -1
      else
        FirstInTail(s, sub, t);
        t + 1
  }

  /** The first occurrence of a character is where `find` stops. */
  lemma IndexOfFirstChar(s: string, c: char, i: int)
    requires 0 <= i < |s| && s[i] == c
    requires forall k :: 0 <= k < i ==> s[k] != c
    ensures IndexOf(s, [c]) == i
  {
    OccursAtChar(s, c, i);
    var r := IndexOf(s, [c]);
    OccursAtChar(s, c, r);
  }

  /** Python's `sep.join(parts)`. */
  function Join(parts: seq<string>, sep: string): string
  {
    if parts == [] then ""
    else if |parts| == 1 then parts[0]
    else parts[0] + sep + Join(parts[1..], sep)
  }

  /** Python's `s.split(sep)` for a non-empty separator: the text between
      successive leftmost occurrences of `sep`. */
  function Split(s: string, sep: string): (parts: seq<string>)
    requires sep != ""
    ensures |parts| >= 1
    decreases |s|
  {
    var i := IndexOf(s, sep);
    if i < 0 then [s]
    else [s[..i]] + Split(s[i + |sep|..], sep)
  }

  /** The first part is the text up to the first separator, or all of it. */
  lemma SplitFirst(s: string, sep: string)
    requires sep != ""
    ensures var i := IndexOf(s, sep);
      && (i < 0 ==> Split(s, sep) == [s])
      && (i >= 0 ==> Split(s, sep) == [s[..i]] + Split(s[i + |sep|..], sep))
  {
  }

  lemma JoinCons(head: string, parts: seq<string>, sep: string)
    requires parts != []
    ensures Join([head] + parts, sep) == head + sep + Join(parts, sep)
  {
    assert ([head] + parts)[1..] == parts;
  }

  /** Text around an occurrence of `sub` is the part before, `sub`, and the
      part after. */
  lemma AroundOccurrence(s: string, sub: string, k: int)
    requires OccursAt(s, sub, k)
    ensures s == s[..k] + sub + s[k + |sub|..]
  {
    assert s == s[..k] + s[k..k + |sub|] + s[k + |sub|..];
  }

  /** Joining the parts with the separator gives the text back. */
  lemma {:induction false} SplitJoin(s: string, sep: string)
    requires sep != ""
    ensures Join(Split(s, sep), sep) == s
    decreases |s|
  {
    var i := IndexOf(s, sep);
    SplitFirst(s, sep);
    if i >= 0 {
      var rest := s[i + |sep|..];
      SplitJoin(rest, sep);
      JoinCons(s[..i], Split(rest, sep), sep);
      AroundOccurrence(s, sep, i);
    }
  }

  /** No part contains the separator. */
  lemma {:induction false} SplitPartsFree(s: string, sep: string)
    requires sep != ""
    ensures forall p :: p in Split(s, sep) ==> !Contains(p, sep)
    decreases |s|
  {
    var i := IndexOf(s, sep);
    if i >= 0 {
      var head := s[..i];
      var rest := s[i + |sep|..];
      SplitPartsFree(rest, sep);
      assert !Contains(head, sep) by {
        forall k | OccursAt(head, sep, k) ensures false {
          assert head[k..k + |sep|] == s[k..k + |sep|];
          assert OccursAt(s, sep, k);
        }
      }
      assert Split(s, sep) == [head] + Split(rest, sep);
    }
  }

  /** Splitting on one character gives one more part than there are
      occurrences of that character. */
  lemma {:induction false} SplitCharCount(s: string, c: char)
    ensures |Split(s, [c])| == multiset(s)[c] + 1
    decreases |s|
  {
    var i := IndexOf(s, [c]);
    if i < 0 {
      assert Split(s, [c]) == [s];
      assert c !in s by {
        forall k | 0 <= k < |s| ensures s[k] != c {
          OccursAtChar(s, c, k);
        }
      }
    } else {
      var rest := s[i + 1..];
      assert Split(s, [c]) == [s[..i]] + Split(rest, [c]);
      SplitCharCount(rest, c);
      OccursAtChar(s, c, i);
      assert s == s[..i] + [c] + rest;
      assert c !in s[..i] by {
        forall k | 0 <= k < i ensures s[..i][k] != c {
          OccursAtChar(s, c, k);
        }
      }
    }
  }

  /** The order Python and pandas use for strings: lexicographic by code point. */
  predicate Less(a: string, b: string)
  {
    if a == [] then b != []
    else if b == [] then false
    else if a[0] != b[0] then a[0] < b[0]
    else Less(a[1..], b[1..])
  }

  lemma {:induction false} LessIrreflexive(a: string)
    ensures !Less(a, a)
  {
    if a != [] {
      LessIrreflexive(a[1..]);
    }
  }

  lemma {:induction false} LessTransitive(a: string, b: string, c: string)
    requires Less(a, b) && Less(b, c)
    ensures Less(a, c)
  {
    if a != [] && b != [] && c != [] && a[0] == b[0] && b[0] == c[0] {
      LessTransitive(a[1..], b[1..], c[1..]);
    }
  }

  lemma {:induction false} LessTotal(a: string, b: string)
    ensures a == b || Less(a, b) || Less(b, a)
  {
    if a != [] && b != [] && a[0] == b[0] {
      LessTotal(a[1..], b[1..]);
      if a[1..] == b[1..] {
        assert a == [a[0]] + a[1..] && b == [b[0]] + b[1..];
      }
    }
  }
}
