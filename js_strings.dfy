/**
 * The JavaScript string operations the core uses (`split` on one character,
 * `join`, and `replace` with a global one-character pattern), on strings as
 * sequences of characters.
 */
module JsStrings {

  /** The position of the first `c` in `s` (`s.indexOf(c)` when it is found). */
  function IndexOf(s: string, c: char): (i: nat)
    requires c in s
    ensures i < |s| && s[i] == c
    ensures c !in s[..i]
  {
    if s[0] == c then 0
    else
      var j := IndexOf(s[1..], c);
      assert s[..j + 1] == [s[0]] + s[1..][..j];
      j + 1
  }

  /** `xs.join(c)`: the strings of `xs` with one `c` between neighbours. */
  function Join(xs: seq<string>, c: char): string
  {
    if |xs| == 0 then ""
    else if |xs| == 1 then xs[0]
    else xs[0] + [c] + Join(xs[1..], c)
  }

  /**
   * `s.split(c)`: the pieces of `s` between occurrences of `c`. There is
   * always at least one piece, no piece contains `c`, and joining the pieces
   * with `c` gives `s` back.
   */
  function Split(s: string, c: char): (pieces: seq<string>)
    ensures |pieces| >= 1
    ensures forall i :: 0 <= i < |pieces| ==> c !in pieces[i]
    ensures Join(pieces, c) == s
    decreases |s|
  {
    if c !in s then [s]
    else
      var i := IndexOf(s, c);
      var rest := Split(s[i + 1..], c);
      assert s == s[..i] + [c] + s[i + 1..];
      [s[..i]] + rest
  }

  /** Every character of a joined string is in the join. */
  lemma {:induction false} JoinContains(xs: seq<string>, c: char, i: nat, d: char)
    requires i < |xs| && d in xs[i]
    ensures d in Join(xs, c)
  {
    if |xs| > 1 {
      if i > 0 {
        JoinContains(xs[1..], c, i - 1, d);
      }
      assert Join(xs, c) == xs[0] + [c] + Join(xs[1..], c);
    }
  }

  /** Every character of a piece comes from the string that was split. */
  lemma SplitChars(s: string, c: char, i: nat, d: char)
    requires i < |Split(s, c)| && d in Split(s, c)[i]
    ensures d in s
  {
    JoinContains(Split(s, c), c, i, d);
  }

  /** Splitting a join of `c`-free strings on `c` gives the strings back. */
  lemma {:induction false} SplitJoin(xs: seq<string>, c: char)
    requires |xs| >= 1
    requires forall i :: 0 <= i < |xs| ==> c !in xs[i]
    ensures Split(Join(xs, c), c) == xs
  {
    if |xs| > 1 {
      SplitJoin(xs[1..], c);
      assert Join(xs, c) == xs[0] + [c] + Join(xs[1..], c);
      SplitAt(xs[0], c, Join(xs[1..], c));
      assert xs == [xs[0]] + xs[1..];
    }
  }

  /** Splitting at the first `c` gives the text before it, then the pieces of the rest. */
  lemma SplitAt(a: string, c: char, b: string)
    requires c !in a
    ensures Split(a + [c] + b, c) == [a] + Split(b, c)
  {
    var s := a + [c] + b;
    assert s[|a|] == c;
    assert s[..|a|] == a;
    var i := IndexOf(s, c);
    assert i == |a|;
    assert s[i + 1..] == b;
  }

  /** A join whose last string is not empty ends with that string's last character. */
  lemma {:induction false} JoinLast(xs: seq<string>, c: char)
    requires |xs| >= 1 && xs[|xs| - 1] != ""
    ensures |Join(xs, c)| >= 1
    ensures Join(xs, c)[|Join(xs, c)| - 1] == xs[|xs| - 1][|xs[|xs| - 1]| - 1]
  {
    if |xs| > 1 {
      JoinLast(xs[1..], c);
    }
  }

  /** `s.replace(/a/g, b)` for one-character `a` and `b`. */
  function ReplaceAll(s: string, a: char, b: char): (r: string)
    ensures |r| == |s|
    ensures forall i :: 0 <= i < |s| ==> r[i] == (if s[i] == a then b else s[i])
  {
    if s == [] then [] else [if s[0] == a then b else s[0]] + ReplaceAll(s[1..], a, b)
  }

  /** The number of occurrences of `a` in `s`. */
  function Count(s: string, a: char): (n: nat)
    ensures n <= |s|
    ensures n == 0 <==> a !in s
  {
    if s == [] then 0 else (if s[0] == a then 1 else 0) + Count(s[1..], a)
  }

  /** `s.replace(/a/g, '')`: `s` with every `a` deleted and the rest kept in order. */
  function RemoveAll(s: string, a: char): (r: string)
    ensures |r| == |s| - Count(s, a)
    ensures a !in r
    ensures forall d :: d != a ==> (d in r <==> d in s)
  {
    if s == [] then [] else (if s[0] == a then [] else [s[0]]) + RemoveAll(s[1..], a)
  }

  /**
   * `RemoveAll` works one character at a time, in order: on a concatenation
   * it gives the concatenation of the two results. With `RemoveAllOne` this
   * fixes the result, order and multiplicity included.
   */
  lemma {:induction false} RemoveAllAppend(s: string, t: string, a: char)
    ensures RemoveAll(s + t, a) == RemoveAll(s, a) + RemoveAll(t, a)
  {
    if s == [] {
      assert s + t == t;
    } else {
      var h := if s[0] == a then [] else [s[0]];
      assert RemoveAll(s + t, a) == h + RemoveAll(s[1..] + t, a) by {
        assert (s + t)[0] == s[0] && (s + t)[1..] == s[1..] + t;
      }
      RemoveAllAppend(s[1..], t, a);
      Assoc(h, RemoveAll(s[1..], a), RemoveAll(t, a));
    }
  }

  lemma Assoc<T>(x: seq<T>, y: seq<T>, z: seq<T>)
    ensures x + (y + z) == (x + y) + z
  {
  }

  /** A single character is kept exactly when it is not `a`. */
  lemma RemoveAllOne(c: char, a: char)
    ensures RemoveAll([c], a) == if c == a then [] else [c]
  {
  }
}
