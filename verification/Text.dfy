/** String searching as std::string does it, shared by every parser. */
module Text {

  datatype Option<+T> = None | Some(value: T)

  /** A header or query field: one entry of the source's case-insensitive multimap. */
  type Field = (string, string)

  /** std::string::npos on a 64-bit platform. */
  const NPOS: nat := 0xFFFF_FFFF_FFFF_FFFF

  const CRLF: string := "\r\n"

  /** Position of the first `c`, or the length of `s` when there is none. */
  function IndexOf(s: string, c: char): (i: nat)
    ensures i <= |s|
    ensures forall k :: 0 <= k < i ==> s[k] != c
    ensures i < |s| ==> s[i] == c
  {
    if s == "" || s[0] == c then 0 else 1 + IndexOf(s[1..], c)
  }

  /** Position of the last `c`, or -1. */
  function LastIndexOf(s: string, c: char): (i: int)
    ensures -1 <= i < |s|
    ensures forall k :: i < k < |s| ==> s[k] != c
    ensures 0 <= i ==> s[i] == c
  {
    if s == "" then -1
    else if s[|s| - 1] == c then |s| - 1
    else LastIndexOf(s[..|s| - 1], c)
  }

  /** The two searches are determined by what they promise. */
  lemma IndexOfUnique(s: string, c: char, i: nat)
    requires i <= |s| && (forall k :: 0 <= k < i ==> s[k] != c) && (i < |s| ==> s[i] == c)
    ensures IndexOf(s, c) == i
  {}

  lemma LastIndexOfUnique(s: string, c: char, i: int)
    requires -1 <= i < |s| && (forall k :: i < k < |s| ==> s[k] != c) && (0 <= i ==> s[i] == c)
    ensures LastIndexOf(s, c) == i
  {}

  /** The text before and behind the first `c`. */
  function Cut(s: string, c: char): Option<(string, string)>
  {
    var i := IndexOf(s, c);
    if i == |s| then None else Some((s[..i], s[i + 1..]))
  }

  lemma CutIff(s: string, c: char, a: string, b: string)
    ensures Cut(s, c) == Some((a, b)) <==> c !in a && s == a + [c] + b
  {
    if c !in a && s == a + [c] + b {
      IndexOfUnique(s, c, |a|);
      assert s[..|a|] == a && s[|a| + 1..] == b;
    }
    if Cut(s, c) == Some((a, b)) {
      assert s == s[..IndexOf(s, c)] + [c] + s[IndexOf(s, c) + 1..];
    }
  }

  /** The pieces of `s` between occurrences of `c`; always at least one piece. */
  function Split(s: string, c: char): (parts: seq<string>)
    ensures parts != []
    decreases |s|
  {
    var i := IndexOf(s, c);
    if i == |s| then [s] else [s[..i]] + Split(s[i + 1..], c)
  }

  function Join(parts: seq<string>, c: char): string
    requires 1 <= |parts|
  {
    if |parts| == 1 then parts[0] else parts[0] + [c] + Join(parts[1..], c)
  }

  /** Splitting loses nothing and leaves no separator inside a piece. */
  lemma {:induction false} SplitIsInverseOfJoin(s: string, c: char)
    ensures Join(Split(s, c), c) == s
    ensures forall part :: part in Split(s, c) ==> c !in part
    decreases |s|
  {
    var i := IndexOf(s, c);
    if i < |s| {
      SplitIsInverseOfJoin(s[i + 1..], c);
      assert Split(s, c)[1..] == Split(s[i + 1..], c);
      assert s == s[..i] + [c] + s[i + 1..];
    }
  }

  /** A piece free of `c` in front of a `c` is the first piece. */
  lemma SplitHead(s: string, t: string, c: char)
    requires c !in s
    ensures Split(s + [c] + t, c) == [s] + Split(t, c)
  {
    var u := s + [c] + t;
    assert u[..|s|] == s && u[|s| + 1..] == t;
    IndexOfUnique(u, c, |s|);
  }

  lemma SplitNone(s: string, c: char)
    requires c !in s
    ensures Split(s, c) == [s]
  {
    IndexOfUnique(s, c, |s|);
  }

  /** `pattern` occurs in `s` at `i`. */
  predicate OccursAt(s: string, pattern: string, i: int)
  {
    0 <= i && i + |pattern| <= |s| && s[i..i + |pattern|] == pattern
  }

  lemma OccursAtTail(s: string, pattern: string, j: int)
    requires 0 < j && s != ""
    ensures OccursAt(s, pattern, j) <==> OccursAt(s[1..], pattern, j - 1)
  {
    if j + |pattern| <= |s| {
      assert s[j..j + |pattern|] == s[1..][j - 1..j - 1 + |pattern|];
    }
  }

  /** Position of the first occurrence of a nonempty pattern. */
  function FindText(s: string, pattern: string): (r: Option<nat>)
    requires pattern != ""
    ensures r.Some? ==> OccursAt(s, pattern, r.value) && forall j :: 0 <= j < r.value ==> !OccursAt(s, pattern, j)
    ensures r.None? ==> forall j :: !OccursAt(s, pattern, j)
  {
    if |s| < |pattern| then None
    else if s[..|pattern|] == pattern then Some(0)
    else
      var r := FindText(s[1..], pattern);
      assert forall j :: 0 < j ==> (OccursAt(s, pattern, j) <==> OccursAt(s[1..], pattern, j - 1)) by {
        forall j | 0 < j ensures OccursAt(s, pattern, j) <==> OccursAt(s[1..], pattern, j - 1) {
          OccursAtTail(s, pattern, j);
        }
      }
      if r.None? then None else Some(r.value + 1)
  }

  lemma FindTextUnique(s: string, pattern: string, i: nat)
    requires pattern != "" && OccursAt(s, pattern, i) && forall j :: 0 <= j < i ==> !OccursAt(s, pattern, j)
    ensures FindText(s, pattern) == Some(i)
  {
    hide OccursAt;
  }

  /** Whether an occurrence is the first depends only on the text up to its end. */
  lemma FindTextPrefix(s: string, t: string, pattern: string)
    requires pattern != "" && FindText(s, pattern).Some?
    ensures FindText(s + t, pattern) == FindText(s, pattern)
  {
    hide FindText, OccursAt;
    var i := FindText(s, pattern).value;
    OccursInside(s, pattern, i);
    forall j | 0 <= j <= i ensures OccursAt(s, pattern, j) <==> OccursAt(s + t, pattern, j) {
      OccursAtPrefix(s, t, pattern, j);
    }
    FindTextUnique(s + t, pattern, i);
  }

  lemma OccursInside(s: string, pattern: string, i: nat)
    requires OccursAt(s, pattern, i)
    ensures i + |pattern| <= |s|
  {}

  lemma OccursAtPrefix(s: string, t: string, pattern: string, j: nat)
    requires j + |pattern| <= |s|
    ensures OccursAt(s, pattern, j) <==> OccursAt(s + t, pattern, j)
  {
    assert (s + t)[j..j + |pattern|] == s[j..j + |pattern|];
  }

  /** std::string::substr with an in-range position: the count is clamped to the end. */
  function Substr(s: string, pos: nat, count: nat): string
    requires pos <= |s|
  {
    if pos + count <= |s| then s[pos..pos + count] else s[pos..]
  }

  function ToLower(c: char): char
  {
    if 'A' <= c <= 'Z' then (c as int + 32) as char else c
  }

  /** case_insensitive_equal. */
  predicate CaseInsensitiveEqual(a: string, b: string)
  {
    |a| == |b| && forall k :: 0 <= k < |a| ==> ToLower(a[k]) == ToLower(b[k])
  }

  /** Every value a case-insensitive `find` may land on; the container fixes no order among equal names. */
  function Lookup(fields: seq<Field>, name: string): seq<string>
  {
    if fields == [] then []
    else (if CaseInsensitiveEqual(fields[0].0, name) then [fields[0].1] else []) + Lookup(fields[1..], name)
  }

  lemma LookupOne(field: Field, name: string)
    ensures Lookup([field], name) == if CaseInsensitiveEqual(field.0, name) then [field.1] else []
  {
    hide CaseInsensitiveEqual;
    assert [field][1..] == [];
  }

  lemma {:induction false} LookupConcat(a: seq<Field>, b: seq<Field>, name: string)
    ensures Lookup(a + b, name) == Lookup(a, name) + Lookup(b, name)
  {
    hide CaseInsensitiveEqual;
    if a == [] {
      assert a + b == b;
    } else {
      LookupConcat(a[1..], b, name);
      assert (a + b)[1..] == a[1..] + b;
    }
  }

  lemma Associative<T>(a: seq<T>, b: seq<T>, c: seq<T>)
    ensures a + b + c == a + (b + c)
  {}

  /** The concatenation of `f` over `xs`; every printer here has this shape. */
  function FlatMap<T, U>(f: T -> seq<U>, xs: seq<T>): seq<U>
  {
    if xs == [] then [] else f(xs[0]) + FlatMap(f, xs[1..])
  }

  lemma {:induction false} FlatMapConcat<T, U>(f: T -> seq<U>, xs: seq<T>, ys: seq<T>)
    ensures FlatMap(f, xs + ys) == FlatMap(f, xs) + FlatMap(f, ys)
  {
    if xs == [] {
      assert xs + ys == ys;
    } else {
      assert (xs + ys)[0] == xs[0] && (xs + ys)[1..] == xs[1..] + ys;
      FlatMapConcat(f, xs[1..], ys);
      Associative(f(xs[0]), FlatMap(f, xs[1..]), FlatMap(f, ys));
    }
  }

  lemma FlatMapOne<T, U>(f: T -> seq<U>, x: T)
    ensures FlatMap(f, [x]) == f(x)
  {
    assert FlatMap(f, [x]) == f(x) + FlatMap(f, [x][1..]);
  }

  /** One more element at the end: what a printing loop does. */
  lemma FlatMapNext<T, U>(f: T -> seq<U>, xs: seq<T>, i: nat)
    requires i < |xs|
    ensures FlatMap(f, xs[..i + 1]) == FlatMap(f, xs[..i]) + f(xs[i])
  {
    assert xs[..i + 1] == xs[..i] + [xs[i]];
    FlatMapConcat(f, xs[..i], [xs[i]]);
    FlatMapOne(f, xs[i]);
  }
}
