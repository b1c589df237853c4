/** Shared vocabulary: optional values, stored JSON documents, the string folding the
  * application relies on, and the order-preserving list operations its managers use. */
module Common {

  datatype Option<T> = None | Some(value: T)

  /** The state of one JSON document on disk, as a loader sees it. */
  datatype Stored<T> = Missing | Unparseable | Parsed(value: T)

  /** Every `Load…FromJson` helper answers "the parsed value, or the empty one" for a
    * missing file, a file that does not parse, and a file that parses to null. */
  function LoadOr<T>(file: Stored<T>, empty: T): (r: T)
    ensures file.Parsed? ==> r == file.value
    ensures !file.Parsed? ==> r == empty
  {
    match file
    case Parsed(v) => v
    case _ => empty
  }

  predicate IsNullOrEmpty(s: Option<string>)
  {
    s == None || s == Some("")
  }

  // ---------------------------------------------------------------------------
  // Characters and strings

  function ToLowerChar(c: char): char
  {
    if 'A' <= c <= 'Z' then (c as int + 32) as char else c
  }

  /** `ToLowerInvariant`, restricted to ASCII letters. */
  function ToLower(s: string): (r: string)
    ensures |r| == |s|
    ensures forall i :: 0 <= i < |s| ==> r[i] == ToLowerChar(s[i])
  {
    if s == [] then [] else [ToLowerChar(s[0])] + ToLower(s[1..])
  }

  /** `Replace(" ", "_")`. */
  function ReplaceSpaces(s: string): (r: string)
    ensures |r| == |s|
    ensures forall i :: 0 <= i < |s| ==> r[i] == (if s[i] == ' ' then '_' else s[i])
  {
    if s == [] then [] else [if s[0] == ' ' then '_' else s[0]] + ReplaceSpaces(s[1..])
  }

  /** The rule that turns a subject or topic name into its identifier. */
  function NameToId(name: string): string
  {
    ToLower(ReplaceSpaces(name))
  }

  /** An identifier keeps the name's length, holds no space and no upper-case ASCII letter,
    * and applying the rule again changes nothing. */
  lemma NameToIdShape(name: string)
    ensures |NameToId(name)| == |name|
    ensures forall i :: 0 <= i < |name| ==> NameToId(name)[i] != ' ' && !('A' <= NameToId(name)[i] <= 'Z')
    ensures NameToId(NameToId(name)) == NameToId(name)
  {
    var id := NameToId(name);
    var again := NameToId(id);
    assert |again| == |id|;
    forall i | 0 <= i < |id| ensures again[i] == id[i] {
      assert ReplaceSpaces(id)[i] == id[i];
    }
  }

  /** `string.Equals(a, b, StringComparison.OrdinalIgnoreCase)`, for ASCII letters. */
  predicate EqualsIgnoreCase(a: string, b: string)
  {
    ToLower(a) == ToLower(b)
  }

  /** The text a label shows for a possibly null string. */
  function TextOf(s: Option<string>): string
  {
    if s.Some? then s.value else ""
  }

  /** `char.IsWhiteSpace` for the Latin-1 range. */
  predicate IsWhiteSpace(c: char)
  {
    c == ' ' || ('\t' <= c <= '\r') || c == '\U{85}' || c == '\U{A0}'
  }

  function TrimStart(s: string): (r: string)
    ensures |r| <= |s| && r == s[|s| - |r|..]
    ensures r == [] || !IsWhiteSpace(r[0])
    ensures forall k :: 0 <= k < |s| - |r| ==> IsWhiteSpace(s[k])
  {
    if s != [] && IsWhiteSpace(s[0]) then TrimStart(s[1..]) else s
  }

  function TrimEnd(s: string): (r: string)
    ensures |r| <= |s| && r == s[..|r|]
    ensures r == [] || !IsWhiteSpace(r[|r| - 1])
    ensures forall k :: |r| <= k < |s| ==> IsWhiteSpace(s[k])
  {
    if s != [] && IsWhiteSpace(s[|s| - 1]) then TrimEnd(s[..|s| - 1]) else s
  }

  /** `string.Trim()`: empty exactly when the text is white space only; otherwise it
    * neither starts nor ends with white space. */
  function Trim(s: string): (r: string)
    ensures |r| <= |s|
    ensures r == [] <==> forall k :: 0 <= k < |s| ==> IsWhiteSpace(s[k])
    ensures r != [] ==> !IsWhiteSpace(r[0]) && !IsWhiteSpace(r[|r| - 1])
  {
    var t := TrimStart(s);
    var r := TrimEnd(t);
    assert r != [] ==> r[0] == t[0];
    r
  }

  // ---------------------------------------------------------------------------
  // Lists

  predicate NoDuplicates<T(==)>(s: seq<T>)
  {
    forall i, j :: 0 <= i < j < |s| ==> s[i] != s[j]
  }

  /** `list.Where(p)`. */
  function Filter<T(!new)>(s: seq<T>, p: T -> bool): (r: seq<T>)
    ensures |r| <= |s|
    ensures forall x :: x in r <==> x in s && p(x)
  {
    if s == [] then [] else (if p(s[0]) then [s[0]] else []) + Filter(s[1..], p)
  }

  lemma FilterAppend<T(!new)>(a: seq<T>, b: seq<T>, p: T -> bool)
    ensures Filter(a + b, p) == Filter(a, p) + Filter(b, p)
  {
    if a == [] {
      assert a + b == b;
    } else {
      assert (a + b)[0] == a[0];
      assert (a + b)[1..] == a[1..] + b;
      FilterAppend(a[1..], b, p);
    }
  }

  /** `list.IndexOf(x)`: the first position holding `x`, or -1. */
  function IndexOf<T(==)>(s: seq<T>, x: T): (i: int)
    ensures i == -1 <==> x !in s
    ensures 0 <= i ==> i < |s| && s[i] == x && x !in s[..i]
  {
    if s == [] then -1
    else if s[0] == x then 0
    else
      var j := IndexOf(s[1..], x);
      assert j >= 0 ==> s[..j + 1] == [s[0]] + s[1..][..j];
      if j < 0 then -1 else j + 1
  }

  /** `list.Remove(x)`: drops the first occurrence, if any, and keeps the rest in order. */
  function RemoveFirst<T(==)>(s: seq<T>, x: T): (r: seq<T>)
    ensures x !in s ==> r == s
    ensures x in s ==> |r| == |s| - 1 && multiset(r) == multiset(s) - multiset{x}
    ensures x in s ==> exists i :: 0 <= i < |s| && s[i] == x && x !in s[..i] && r == s[..i] + s[i + 1..]
  {
    var i := IndexOf(s, x);
    if i < 0 then s
    else
      assert s == s[..i] + [x] + s[i + 1..];
      s[..i] + s[i + 1..]
  }

  /** On a list without duplicates, removing an element drops its only occurrence and
    * leaves a list without duplicates. */
  lemma RemoveFirstUnique<T>(s: seq<T>, x: T)
    requires NoDuplicates(s) && x in s
    ensures x !in RemoveFirst(s, x) && NoDuplicates(RemoveFirst(s, x))
  {
    var i := IndexOf(s, x);
    var r := RemoveFirst(s, x);
    assert r == s[..i] + s[i + 1..];
    assert forall k :: 0 <= k < |r| ==> r[k] == if k < i then s[k] else s[k + 1];
  }

  /** Appending an absent element and removing it again gives the list back. */
  lemma RemoveAppended<T>(s: seq<T>, x: T)
    requires x !in s
    ensures RemoveFirst(s + [x], x) == s
    ensures NoDuplicates(s) ==> NoDuplicates(s + [x])
  {
    var t := s + [x];
    var i := IndexOf(t, x);
    assert t[i] == x;
    assert forall j :: 0 <= j < |s| ==> t[j] == s[j];
    assert t[..|s|] == s;
  }

  /** Appends to `acc`, in order, every element of `s` that is not yet present: the way the
    * merge routines grow a list of identifiers without duplicating one. */
  function UnionInOrder<T(==)>(acc: seq<T>, s: seq<T>): seq<T>
    decreases |s|
  {
    if s == [] then acc
    else
      var prev := UnionInOrder(acc, s[..|s| - 1]);
      var x := s[|s| - 1];
      if x in prev then prev else prev + [x]
  }

  /** The union keeps `acc` as a prefix, holds exactly the elements of both lists, adds no
    * duplicate, and adds nothing when `s` brings nothing new. */
  lemma {:induction false} UnionInOrderSpec<T>(acc: seq<T>, s: seq<T>)
    ensures acc <= UnionInOrder(acc, s)
    ensures forall x :: x in UnionInOrder(acc, s) <==> x in acc || x in s
    ensures NoDuplicates(acc) ==> NoDuplicates(UnionInOrder(acc, s))
    ensures (forall x :: x in s ==> x in acc) ==> UnionInOrder(acc, s) == acc
    decreases |s|
  {
    if s != [] {
      var init := s[..|s| - 1];
      UnionInOrderSpec(acc, init);
      assert s == init + [s[|s| - 1]];
    }
  }

  /** On a longer list that starts with `a`, an element of `a` is still found where it was. */
  lemma {:induction false} IndexOfPrefix<T>(a: seq<T>, b: seq<T>, x: T)
    requires a <= b && x in a
    ensures IndexOf(b, x) == IndexOf(a, x)
    decreases |a|
  {
    if a[0] != x {
      assert b[1..][..|a| - 1] == a[1..];
      IndexOfPrefix(a[1..], b[1..], x);
    }
  }

  /** Merging two lists one after the other is merging their concatenation. */
  lemma {:induction false} UnionInOrderAppend<T>(acc: seq<T>, x: seq<T>, y: seq<T>)
    ensures UnionInOrder(UnionInOrder(acc, x), y) == UnionInOrder(acc, x + y)
    decreases |y|
  {
    if y == [] {
      assert x + y == x;
    } else {
      var init := y[..|y| - 1];
      UnionInOrderAppend(acc, x, init);
      assert (x + y)[..|x + y| - 1] == x + init;
      assert (x + y)[|x + y| - 1] == y[|y| - 1];
    }
  }

  /** Merging the same list in twice adds nothing the second time. */
  lemma UnionInOrderIdempotent<T>(acc: seq<T>, s: seq<T>)
    ensures UnionInOrder(UnionInOrder(acc, s), s) == UnionInOrder(acc, s)
  {
    UnionInOrderSpec(acc, s);
    UnionInOrderSpec(UnionInOrder(acc, s), s);
  }
}
