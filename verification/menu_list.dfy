/** The work list of a batch run: the menu names read from the name file
    (read_menu_names) and the names still pending once the completed ones
    are taken out (the list comprehension in main). */
module MenuList {
  import opened Wrappers

  /** Python's str.isspace() on one character: the Unicode whitespace that
      str.strip() with no argument removes. */
  predicate IsSpace(c: char) {
    var n := c as int;
    (0x09 <= n <= 0x0D) || (0x1C <= n <= 0x20) || n == 0x85 || n == 0xA0 || n == 0x1680
    || (0x2000 <= n <= 0x200A) || n == 0x2028 || n == 0x2029 || n == 0x202F || n == 0x205F
    || n == 0x3000
  }

  /** The length of the run of whitespace that starts `s`. */
  function LeadingSpaces(s: string): (n: nat)
    ensures n <= |s|
    ensures forall k :: 0 <= k < n ==> IsSpace(s[k])
    ensures n < |s| ==> !IsSpace(s[n])
  {
    if s == [] || !IsSpace(s[0]) then 0 else 1 + LeadingSpaces(s[1..])
  }

  /** The length of the run of whitespace that ends `s`. */
  function TrailingSpaces(s: string): (n: nat)
    ensures n <= |s|
    ensures forall k :: |s| - n <= k < |s| ==> IsSpace(s[k])
    ensures n < |s| ==> !IsSpace(s[|s| - 1 - n])
  {
    if s == [] || !IsSpace(s[|s| - 1]) then 0 else 1 + TrailingSpaces(s[..|s| - 1])
  }

  /** Python's str.strip(): `s` without the whitespace at either end. */
  function Strip(s: string): (r: string)
    ensures r == "" <==> forall k :: 0 <= k < |s| ==> IsSpace(s[k])
    ensures r != "" ==> !IsSpace(r[0]) && !IsSpace(r[|r| - 1])
    ensures exists i, j :: 0 <= i <= j <= |s| && r == s[i..j]
                           && (forall k :: 0 <= k < i ==> IsSpace(s[k]))
                           && (forall k :: j <= k < |s| ==> IsSpace(s[k]))
  {
    var i := LeadingSpaces(s);
    var t := s[i..];
    var r := t[..|t| - TrailingSpaces(t)];
    assert r == s[i..i + |r|];
    r
  }

  lemma StripIdempotent(s: string)
    ensures Strip(Strip(s)) == Strip(s)
  {
    var r := Strip(s);
    if r != "" {
      assert LeadingSpaces(r) == 0;
      assert TrailingSpaces(r) == 0;
      assert r[0..][..|r|] == r;
    }
  }

  /** `a` can be obtained from `b` by deleting elements: same order, nothing added. */
  predicate IsSubsequence<T(==)>(a: seq<T>, b: seq<T>)
    decreases |b|
  {
    a == [] || (b != [] && ((a[0] == b[0] && IsSubsequence(a[1..], b[1..])) || IsSubsequence(a, b[1..])))
  }

  /** Every line of the name file, stripped. */
  function StrippedLines(lines: seq<string>): (r: seq<string>)
    ensures |r| == |lines|
    ensures forall i :: 0 <= i < |lines| ==> r[i] == Strip(lines[i])
  {
    seq(|lines|, i requires 0 <= i < |lines| => Strip(lines[i]))
  }

  /** The comprehension of read_menu_names: the stripped lines that are not blank. */
  function NonBlankLines(lines: seq<string>): (r: seq<string>)
    ensures |r| <= |lines|
    ensures forall x :: x in r <==> x != "" && x in StrippedLines(lines)
    ensures IsSubsequence(r, StrippedLines(lines))
    ensures forall x :: x != "" ==> multiset(r)[x] == multiset(StrippedLines(lines))[x]
  {
    if lines == [] then []
    else
      var head := Strip(lines[0]);
      var rest := NonBlankLines(lines[1..]);
      assert StrippedLines(lines) == [head] + StrippedLines(lines[1..]);
      if head != "" then
        assert ([head] + rest)[1..] == rest;
        [head] + rest
      else
        rest
  }

  /** A read menu name has no whitespace left to strip. */
  lemma MenuNamesAreStripped(lines: seq<string>)
    ensures forall x :: x in NonBlankLines(lines) ==> Strip(x) == x
  {
    forall x | x in NonBlankLines(lines)
      ensures Strip(x) == x
    {
      var i :| 0 <= i < |lines| && StrippedLines(lines)[i] == x;
      StripIdempotent(lines[i]);
    }
  }

  /** Python's `s[:k]` for an integer `k`; a negative `k` counts from the end. */
  function SlicePrefix<T>(s: seq<T>, k: int): (r: seq<T>)
    ensures r <= s
    ensures k >= 0 ==> |r| == if k < |s| then k else |s|
    ensures k < 0 ==> |r| + (if -k < |s| then -k else |s|) == |s|
  {
    if k >= 0 then (if k < |s| then s[..k] else s)
    else (if -k < |s| then s[..|s| + k] else [])
  }

  /** read_menu_names over the lines of the name file. `limit` cuts the list
      only when it is truthy, that is neither None nor 0. */
  function ReadMenuNames(lines: seq<string>, limit: Option<int>): (r: seq<string>)
    ensures r <= NonBlankLines(lines)
    ensures limit == None || limit == Some(0) ==> r == NonBlankLines(lines)
    ensures limit.Some? && limit.value > 0 ==>
              |r| == if limit.value < |NonBlankLines(lines)| then limit.value else |NonBlankLines(lines)|
    ensures limit.Some? && limit.value < 0 ==>
              |r| == if -limit.value < |NonBlankLines(lines)| then |NonBlankLines(lines)| + limit.value else 0
    ensures forall x :: x in r ==> x != "" && Strip(x) == x
  {
    var names := NonBlankLines(lines);
    var r := if limit.Some? && limit.value != 0 then SlicePrefix(names, limit.value) else names;
    MenuNamesAreStripped(lines);
    PrefixMembers(r, names);
    r
  }

  lemma PrefixMembers(r: seq<string>, names: seq<string>)
    requires r <= names
    ensures forall x :: x in r ==> x in names
  {
    forall x | x in r
      ensures x in names
    {
      var k :| 0 <= k < |r| && r[k] == x;
      assert names[k] == x;
    }
  }

  /** The names of `names` that are not in `excluded`, in their original order. */
  function Without(names: seq<string>, excluded: set<string>): (r: seq<string>)
    ensures IsSubsequence(r, names)
    ensures forall x :: x in r <==> x in names && x !in excluded
    ensures forall x :: x !in excluded ==> multiset(r)[x] == multiset(names)[x]
  {
    if names == [] then []
    else
      var rest := Without(names[1..], excluded);
      assert names == [names[0]] + names[1..];
      if names[0] in excluded then
        rest
      else
        assert ([names[0]] + rest)[1..] == rest;
        [names[0]] + rest
  }

  /** The pending list of main: the loaded names minus the completed ones.
      The filter is applied only when the completed set is non-empty. */
  function PendingMenus(names: seq<string>, completed: set<string>): (r: seq<string>)
    ensures r == Without(names, completed)
  {
    if completed != {} then Without(names, completed)
    else
      WithoutNothing(names);
      names
  }

  lemma {:induction false} WithoutNothing(names: seq<string>)
    ensures Without(names, {}) == names
    decreases |names|
  {
    if names != [] {
      WithoutNothing(names[1..]);
      assert names == [names[0]] + names[1..];
    }
  }

  /** Taking out `a` and then `b` is taking out both at once. */
  lemma {:induction false} WithoutTwice(names: seq<string>, a: set<string>, b: set<string>)
    ensures Without(Without(names, a), b) == Without(names, a + b)
    decreases |names|
  {
    if names != [] {
      WithoutTwice(names[1..], a, b);
      var rest := Without(names[1..], a);
      if names[0] !in a {
        assert Without(names, a) == [names[0]] + rest;
        assert ([names[0]] + rest)[1..] == rest;
      }
    }
  }

  /** Taking out a set that covers every name leaves nothing. */
  lemma WithoutEverything(names: seq<string>, excluded: set<string>)
    requires forall x :: x in names ==> x in excluded
    ensures Without(names, excluded) == []
  {
  }
}
