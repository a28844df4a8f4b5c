/**
 * Value types shared by every layer of the patching engine, and the few
 * JavaScript string operations the engine relies on, with their exact
 * JavaScript semantics (offset clamping, `split`, `join`, `indexOf`).
 */
module Util {

  datatype Option<+T> = None | Some(value: T)

  /** Why an operation of the engine gave up. */
  datatype Error =
    | IOError(path: string)
      // the file to read is not in the store
    | NoAnchorNoFallback(toInsert: string)
      // nothing to anchor an insertion to and no fallback offset
    | MultipleOrNoBootstrap(mainFile: string)
      // not exactly one top-level bootstrap call
    | MultipleOrNoExportDefault
      // not exactly one `export default` in the routes file
    | DuplicateRoute
      // the route with this component is already in the table
    | TypeError(what: string)
      // the source dereferences `undefined` here and throws

  datatype Result<+T> = Success(value: T) | Failure(error: Error)

  /** JavaScript clamps a `substring` offset into `[0, len]`. */
  function Clamp(i: int, len: nat): (c: nat)
    ensures c <= len
    ensures 0 <= i <= len ==> c == i
  {
    if i < 0 then 0 else if i > len then len else i
  }

  /** `s.substring(start, end)`: both offsets clamped, swapped when out of order. */
  function JsSubstring(s: string, start: int, end: int): string
  {
    var a := Clamp(start, |s|);
    var b := Clamp(end, |s|);
    if a <= b then s[a..b] else s[b..a]
  }

  /** `s.substring(start)`. */
  function JsSubstringFrom(s: string, start: int): string
  {
    s[Clamp(start, |s|)..]
  }

  /** `s.split(c)` for a one-character separator. */
  function Split(s: string, c: char): (parts: seq<string>)
    ensures |parts| >= 1
    ensures forall k :: 0 <= k < |parts| ==> c !in parts[k]
  {
    if s == [] then [[]]
    else if s[0] == c then [[]] + Split(s[1..], c)
    else
      var rest := Split(s[1..], c);
      [[s[0]] + rest[0]] + rest[1..]
  }

  /** A text without the separator splits into itself. */
  lemma {:induction false} SplitWithoutSeparator(s: string, c: char)
    requires c !in s
    ensures Split(s, c) == [s]
  {
    if s != [] {
      assert c !in s[1..] by {
        forall d | d in s[1..] ensures d != c { assert d in s; }
      }
      SplitWithoutSeparator(s[1..], c);
      assert s[0] in s;
      assert [s[0]] + s[1..] == s;
    }
  }

  /** `parts.join(sep)`. */
  function Join(parts: seq<string>, sep: string): string
  {
    if |parts| == 0 then []
    else if |parts| == 1 then parts[0]
    else parts[0] + sep + Join(parts[1..], sep)
  }

  /** `t` occurs in `s` at offset `j`. */
  predicate OccursAt(s: string, t: string, j: nat)
  {
    j + |t| <= |s| && s[j..j + |t|] == t
  }

  /** `s.indexOf(t, from)`: the first offset at or after `from` where `t` occurs, or -1. */
  function IndexFrom(s: string, t: string, from: nat): (i: int)
    ensures i == -1 || (from <= i && OccursAt(s, t, i))
    ensures i != -1 ==> forall j: nat :: from <= j < i ==> !OccursAt(s, t, j)
    ensures i == -1 ==> forall j: nat :: from <= j ==> !OccursAt(s, t, j)
    decreases |s| - from
  {
    if from + |t| > |s| then -1
    else if s[from..from + |t|] == t then from
    else IndexFrom(s, t, from + 1)
  }

  function IndexOf(s: string, t: string): int
  {
    IndexFrom(s, t, 0)
  }

  /** The decimal digit character for `d`. */
  function Digit(d: nat): (c: char)
    requires d < 10
    ensures '0' <= c <= '9'
  {
    ('0' as int + d) as char
  }

  /** The decimal text of a number, as a template literal `${n}` prints it. */
  function NatToString(n: nat): (r: string)
    ensures |r| >= 1
    ensures (n < 10) == (|r| == 1)
    ensures forall k :: 0 <= k < |r| ==> '0' <= r[k] <= '9'
  {
    if n < 10 then [Digit(n)] else NatToString(n / 10) + [Digit(n % 10)]
  }

  function IntToString(i: int): string
  {
    if i < 0 then "-" + NatToString(-i) else NatToString(i)
  }

  /** Distinct numbers print differently. */
  lemma {:induction false} NatToStringInjective(a: nat, b: nat)
    requires NatToString(a) == NatToString(b)
    ensures a == b
  {
    if a < 10 {
      assert b < 10;
      assert Digit(a) == Digit(b);
    } else {
      var sa, sb := NatToString(a), NatToString(b);
      assert sa[..|sa| - 1] == NatToString(a / 10);
      assert sb[..|sb| - 1] == NatToString(b / 10);
      NatToStringInjective(a / 10, b / 10);
      assert Digit(a % 10) == sa[|sa| - 1] == sb[|sb| - 1] == Digit(b % 10);
    }
  }

  /** `s.toLowerCase()` on the ASCII letters. */
  function ToLowerAscii(s: string): (r: string)
    ensures |r| == |s|
    ensures forall k :: 0 <= k < |s| ==> r[k] == if 'A' <= s[k] <= 'Z' then (s[k] as int + 32) as char else s[k]
  {
    if s == [] then []
    else
      var c := s[0];
      [if 'A' <= c <= 'Z' then (c as int + 32) as char else c] + ToLowerAscii(s[1..])
  }

  /**
   * `s.replace(/c/, d)` for a one-character pattern without the `g` flag:
   * only the first `c` is replaced.
   */
  function ReplaceFirst(s: string, c: char, d: char): (r: string)
    ensures |r| == |s|
    ensures c !in s ==> r == s
  {
    if s == [] then []
    else if s[0] == c then [d] + s[1..]
    else [s[0]] + ReplaceFirst(s[1..], c, d)
  }

  /** The first `c`, at `k`, becomes `d`; everything else is kept. */
  lemma {:induction false} ReplaceFirstAt(s: string, c: char, d: char, k: nat)
    requires k < |s| && s[k] == c && c !in s[..k]
    ensures ReplaceFirst(s, c, d) == s[..k] + [d] + s[k + 1..]
  {
    if k > 0 {
      assert s[0] in s[..k];
      assert s[1..][..k - 1] == s[1..k];
      assert c !in s[1..][..k - 1];
      ReplaceFirstAt(s[1..], c, d, k - 1);
      assert s[..k] == [s[0]] + s[1..][..k - 1];
      assert s[1..][k..] == s[k + 1..];
    }
  }

  /** `Array(n + 1).join(' ')`: `n` spaces. */
  function Spaces(n: nat): (r: string)
    ensures |r| == n
    ensures forall k :: 0 <= k < n ==> r[k] == ' '
  {
    if n == 0 then [] else Spaces(n - 1) + " "
  }

  /** Keeps the elements of `s` that satisfy `p`, in order: `s.filter(p)`. */
  function Filter<T(!new)>(s: seq<T>, p: T -> bool): (r: seq<T>)
    ensures |r| <= |s|
    ensures forall x :: x in r <==> x in s && p(x)
  {
    if s == [] then []
    else Filter(s[..|s| - 1], p) + (if p(s[|s| - 1]) then [s[|s| - 1]] else [])
  }

  /** Filtering keeps the order: it distributes over concatenation. */
  lemma {:induction false} FilterAppend<T(!new)>(a: seq<T>, b: seq<T>, p: T -> bool)
    ensures Filter(a + b, p) == Filter(a, p) + Filter(b, p)
    decreases |b|
  {
    if b != [] {
      var n := |b| - 1;
      assert (a + b)[..|a + b| - 1] == a + b[..n];
      assert (a + b)[|a + b| - 1] == b[n];
      FilterAppend(a, b[..n], p);
    } else {
      assert a + b == a;
    }
  }

  /** An element that satisfies `p` with none before it is the first one kept. */
  lemma {:induction false} FilterFirst<T(!new)>(s: seq<T>, p: T -> bool, j: nat)
    requires j < |s| && p(s[j])
    requires forall i :: 0 <= i < j ==> !p(s[i])
    ensures Filter(s, p) != [] && Filter(s, p)[0] == s[j]
  {
    var n := |s| - 1;
    if j < n {
      assert s[..n][j] == s[j];
      FilterFirst(s[..n], p, j);
    } else {
      FilterNone(s[..n], p);
    }
  }

  /** When exactly one element satisfies `p`, it is all that is kept. */
  lemma {:induction false} FilterOnly<T(!new)>(s: seq<T>, p: T -> bool, j: nat)
    requires j < |s| && p(s[j])
    requires forall i :: 0 <= i < |s| && i != j ==> !p(s[i])
    ensures Filter(s, p) == [s[j]]
  {
    var n := |s| - 1;
    if j < n {
      assert s[..n][j] == s[j];
      FilterOnly(s[..n], p, j);
    } else {
      FilterNone(s[..n], p);
    }
  }

  /** Nothing is kept when no element satisfies `p`. */
  lemma {:induction false} FilterNone<T(!new)>(s: seq<T>, p: T -> bool)
    requires forall i :: 0 <= i < |s| ==> !p(s[i])
    ensures Filter(s, p) == []
  {
    if s != [] {
      FilterNone(s[..|s| - 1], p);
    }
  }

  /** Two elements that satisfy `p` are both kept. */
  lemma {:induction false} FilterTwo<T(!new)>(s: seq<T>, p: T -> bool, i: nat, j: nat)
    requires i < j < |s| && p(s[i]) && p(s[j])
    ensures |Filter(s, p)| >= 2
  {
    assert s == s[..j] + s[j..];
    FilterAppend(s[..j], s[j..], p);
    assert s[..j][i] == s[i];
    assert s[i] in Filter(s[..j], p);
    assert s[j..][0] == s[j];
    assert s[j] in Filter(s[j..], p);
  }

  /** Splitting the join of separator-free parts gives the parts back. */
  lemma {:induction false} SplitJoin(parts: seq<string>, c: char)
    requires |parts| >= 1
    requires forall k :: 0 <= k < |parts| ==> c !in parts[k]
    ensures Split(Join(parts, [c]), c) == parts
    decreases |Join(parts, [c])|
  {
    var head := parts[0];
    if head == [] {
      if |parts| > 1 {
        assert Join(parts, [c]) == [c] + Join(parts[1..], [c]);
        SplitJoin(parts[1..], c);
        assert Join(parts, [c])[1..] == Join(parts[1..], [c]);
      }
    } else {
      var tailParts := [head[1..]] + parts[1..];
      assert head[0] != c by { assert head[0] in head; }
      forall k | 0 <= k < |tailParts| ensures c !in tailParts[k] {
        if k == 0 {
          forall d | d in head[1..] ensures d != c { assert d in head; }
        } else {
          assert tailParts[k] == parts[k];
        }
      }
      JoinConsChar(parts, c);
      SplitJoin(tailParts, c);
      var s := Join(parts, [c]);
      assert s[1..] == Join(tailParts, [c]);
      assert [head[0]] + head[1..] == head;
      assert parts == [head] + parts[1..];
    }
  }

  /** The first character of a non-empty first part leads the join. */
  lemma JoinConsChar(parts: seq<string>, c: char)
    requires |parts| >= 1 && parts[0] != []
    ensures Join(parts, [c]) == [parts[0][0]] + Join([parts[0][1..]] + parts[1..], [c])
  {
    if |parts| == 1 {
      JoinConsSingle(parts, c);
    } else {
      JoinConsMany(parts, c);
    }
  }

  lemma JoinConsSingle(parts: seq<string>, c: char)
    requires |parts| == 1 && parts[0] != []
    ensures Join(parts, [c]) == [parts[0][0]] + Join([parts[0][1..]] + parts[1..], [c])
  {
    var head := parts[0];
    assert [head[1..]] + parts[1..] == [head[1..]];
    assert head == [head[0]] + head[1..];
  }

  lemma JoinConsMany(parts: seq<string>, c: char)
    requires |parts| >= 2 && parts[0] != []
    ensures Join(parts, [c]) == [parts[0][0]] + Join([parts[0][1..]] + parts[1..], [c])
  {
    var head := parts[0];
    var rest := parts[1..];
    var tailParts := [head[1..]] + rest;
    assert tailParts[0] == head[1..] && tailParts[1..] == rest;
    var joined := Join(rest, [c]);
    assert Join(tailParts, [c]) == head[1..] + [c] + joined;
    assert head == [head[0]] + head[1..];
    assert [head[0]] + (head[1..] + [c] + joined) == head + [c] + joined;
  }
}
