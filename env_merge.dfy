/**
 * The rewrite of the `.env` file when the OAuth callback has obtained tokens
 * (src/utils/token-generator.ts, lines 42-46). The old file is read as
 * `KEY=value` lines into a `Map`, turned into an object, spread into a new
 * object together with the two tokens, and written back one `KEY=value`
 * line per own property, in JavaScript's property order.
 */
module EnvMerge {
  import opened Wrappers
  import opened JsStrings
  import opened JsObjects

  /** A value read from or written to `.env`; `None` is JavaScript's `undefined`. */
  type EnvValue = Option<string>

  const BearerKey: string := "BEARER_TOKEN"
  const RefreshKey: string := "REFRESH_TOKEN"

  /**
   * `line.split('=', 2)` read as a `[key, value]` pair: the key is the text
   * before the first `=`, the value the text between the first and the second
   * `=` (or to the end), and `undefined` when the line has no `=`.
   */
  function SplitPair(line: string): (e: (string, EnvValue))
    ensures '=' !in e.0 && (e.1.Some? ==> '=' !in e.1.value)
    ensures '=' !in line ==> e == (line, None)
  {
    var pieces := Split(line, '=');
    (pieces[0], if |pieces| >= 2 then Some(pieces[1]) else None)
  }

  /** A line without a newline gives a pair without one, which prints without one. */
  lemma SplitPairNoNewline(line: string)
    requires '\n' !in line
    ensures '\n' !in SplitPair(line).0 && '\n' !in ValueText(SplitPair(line).1)
  {
    var pieces := Split(line, '=');
    if '\n' in pieces[0] {
      SplitChars(line, '=', 0, '\n');
    }
    if |pieces| >= 2 && '\n' in pieces[1] {
      SplitChars(line, '=', 1, '\n');
    }
    assert '\n' !in "undefined";
  }

  /** `lines.filter(Boolean)`: the empty lines are dropped, the others kept in order. */
  function NonEmpty(lines: seq<string>): seq<string>
  {
    if lines == [] then []
    else (if lines[0] == "" then [] else [lines[0]]) + NonEmpty(lines[1..])
  }

  lemma {:induction false} NonEmptyMembers(lines: seq<string>)
    ensures forall l :: l in NonEmpty(lines) <==> l in lines && l != ""
  {
    if lines != [] {
      NonEmptyMembers(lines[1..]);
      assert lines == [lines[0]] + lines[1..];
    }
  }

  /**
   * `filter(Boolean)` works line by line, in order: on a concatenation it
   * gives the concatenation of the two results. With `NonEmptyOne` this
   * fixes the result, order and repeated lines included.
   */
  lemma {:induction false} NonEmptyAppend(xs: seq<string>, ys: seq<string>)
    ensures NonEmpty(xs + ys) == NonEmpty(xs) + NonEmpty(ys)
  {
    if xs == [] {
      assert xs + ys == ys;
    } else {
      var h := if xs[0] == "" then [] else [xs[0]];
      assert NonEmpty(xs + ys) == h + NonEmpty(xs[1..] + ys) by {
        assert (xs + ys)[0] == xs[0] && (xs + ys)[1..] == xs[1..] + ys;
      }
      NonEmptyAppend(xs[1..], ys);
      Assoc(h, NonEmpty(xs[1..]), NonEmpty(ys));
    }
  }

  /** A single line is kept exactly when it is not empty. */
  lemma NonEmptyOne(l: string)
    ensures NonEmpty([l]) == if l == "" then [] else [l]
  {
  }

  /** `.map(line => line.split('=', 2))` */
  function PairsOf(lines: seq<string>): (r: Props<EnvValue>)
    ensures |r| == |lines|
    ensures forall i :: 0 <= i < |lines| ==> r[i] == SplitPair(lines[i])
  {
    if lines == [] then [] else [SplitPair(lines[0])] + PairsOf(lines[1..])
  }

  /** The lines of the file as `[key, value]` pairs, before the `Map` merges repeated keys. */
  function FilePairs(text: string): Props<EnvValue>
  {
    PairsOf(NonEmpty(Split(text, '\n')))
  }

  /**
   * `new Map(...)` over the pairs: one entry per key, at the position of its
   * first line, holding the value of its last line.
   */
  function ParseEnv(text: string): (r: Props<EnvValue>)
    ensures UniqueKeys(r)
  {
    FromEntries(FilePairs(text))
  }

  /**
   * `{ ...Object.fromEntries(map), BEARER_TOKEN: access, REFRESH_TOKEN: refresh }`:
   * the object built from the map, whose property order the spread copies,
   * with the two token properties put after it.
   */
  function Merge(text: string, access: string, refresh: EnvValue): Props<EnvValue>
  {
    MergeProps(ParseEnv(text), access, refresh)
  }

  /** `${value}`: the value as a template literal prints it. */
  function ValueText(v: EnvValue): string
  {
    match v
    case None => "undefined"
    case Some(s) => s
  }

  /** The properties with their values as printed. */
  function TextView(p: Props<EnvValue>): Props<string>
  {
    MapValues(p, ValueText)
  }

  /** `` `${key}=${value}` `` for each property. */
  function LinesOf(p: Props<string>): (r: seq<string>)
    ensures |r| == |p|
    ensures forall i :: 0 <= i < |p| ==> r[i] == p[i].0 + "=" + p[i].1
  {
    if p == [] then [] else [p[0].0 + "=" + p[0].1] + LinesOf(p[1..])
  }

  /** The properties written back, in `Object.entries` order. */
  function MergedEntries(text: string, access: string, refresh: EnvValue): Props<EnvValue>
  {
    Entries(Merge(text, access, refresh))
  }

  /** The text written for a list of properties: one line each, joined with `\n`. */
  function Written(e: Props<EnvValue>): string
  {
    Join(LinesOf(TextView(e)), '\n')
  }

  /** The new text of `.env`: the lines joined with `\n`, with no newline at the end. */
  function Rewrite(text: string, access: string, refresh: EnvValue): string
  {
    Written(MergedEntries(text, access, refresh))
  }

  /** The token keys are named keys, so they come after any array-index keys. */
  lemma TokenKeysNamed()
    ensures !IsArrayIndex(BearerKey) && !IsArrayIndex(RefreshKey)
  {
    assert !IsDigit(BearerKey[0]);
    assert !IsDigit(RefreshKey[0]);
  }

  /** A line with one `=` is its key and its value. */
  lemma SplitPairWhole(k: string, v: string)
    requires '=' !in k && '=' !in v
    ensures SplitPair(k + "=" + v) == (k, Some(v))
  {
    SplitPairOfLine(k, v);
  }

  /**
   * A line is cut at its first and second `=`: the key is the text before the
   * first, the value the text up to the second, and the rest is lost.
   */
  lemma SplitPairTruncates(k: string, v: string, rest: string)
    requires '=' !in k && '=' !in v
    ensures SplitPair(k + "=" + v + "=" + rest) == (k, Some(v))
  {
    var x := v + "=" + rest;
    ConcatAssoc(k + "=", v + "=", rest);
    ConcatAssoc(k, "=", v);
    ConcatAssoc(k + "=", v, "=");
    assert k + "=" + v + "=" + rest == k + "=" + x;
    SplitPairOfLine(k, x);
    SplitAt(v, '=', rest);
  }

  lemma SplitPairOfLine(k: string, x: string)
    requires '=' !in k
    ensures SplitPair(k + "=" + x) == (k, Some(Split(x, '=')[0]))
  {
    assert k + "=" + x == k + ['='] + x;
    SplitAt(k, '=', x);
  }

  /** The text between the first two `=` of a value as it is printed. */
  function Reparse(v: EnvValue): EnvValue
  {
    Some(Split(ValueText(v), '=')[0])
  }

  /** A key and a value that contain neither `=` nor a newline. */
  predicate Clean(e: (string, EnvValue))
  {
    '=' !in e.0 && '\n' !in e.0 && '=' !in ValueText(e.1) && '\n' !in ValueText(e.1)
  }

  lemma {:induction false} FilePairsClean(text: string)
    ensures forall e :: e in FilePairs(text) ==> Clean(e)
  {
    var lines := Split(text, '\n');
    var kept := NonEmpty(lines);
    var es := PairsOf(kept);
    NonEmptyMembers(lines);
    forall e | e in es ensures Clean(e) {
      var i :| 0 <= i < |es| && es[i] == e;
      assert kept[i] in kept;
      var line := kept[i];
      assert line in lines;
      assert '\n' !in line;
      assert e == SplitPair(line);
      SplitPairNoNewline(line);
    }
  }

  /**
   * What the file holds after parsing: one entry per key, in the order keys
   * first appear, each holding the value of the key's last line; keys and
   * values contain neither `=` nor a newline.
   */
  lemma ParseEnvEntries(text: string)
    ensures UniqueKeys(ParseEnv(text))
    ensures Keys(ParseEnv(text)) == Dedup(Keys(FilePairs(text)))
    ensures forall k :: Get(ParseEnv(text), k) == LastValue(FilePairs(text), k)
    ensures forall e :: e in ParseEnv(text) ==> Clean(e)
  {
    var es := FilePairs(text);
    FilePairsClean(text);
    FromEntriesMembers(es);
  }

  /** The merge applied to the object read from the file. */
  function MergeProps(p: Props<EnvValue>, access: string, refresh: EnvValue): Props<EnvValue>
  {
    Put(Put(Entries(p), BearerKey, Some(access)), RefreshKey, refresh)
  }

  lemma PutKeepsUnique<V>(p: Props<V>, k: string, v: V)
    requires UniqueKeys(p)
    ensures UniqueKeys(Put(p, k, v))
  {
    var ks := Keys(Put(p, k, v));
    if k !in Keys(p) {
      forall i, j | 0 <= i < j < |ks| ensures ks[i] != ks[j] {
        if j < |Keys(p)| {
          assert ks[i] == Keys(p)[i] && ks[j] == Keys(p)[j];
        } else {
          assert ks[i] == Keys(p)[i];
        }
      }
    }
  }

  lemma MergePropsUnique(p: Props<EnvValue>, access: string, refresh: EnvValue)
    requires UniqueKeys(p)
    ensures UniqueKeys(Entries(p))
    ensures UniqueKeys(Put(Entries(p), BearerKey, Some(access)))
    ensures UniqueKeys(MergeProps(p, access, refresh))
  {
    EntriesPermutes(p);
    PutKeepsUnique(Entries(p), BearerKey, Some(access));
    PutKeepsUnique(Put(Entries(p), BearerKey, Some(access)), RefreshKey, refresh);
  }

  lemma MergePropsContents(p: Props<EnvValue>, access: string, refresh: EnvValue)
    requires UniqueKeys(p)
    ensures UniqueKeys(Entries(MergeProps(p, access, refresh)))
    ensures Get(Entries(MergeProps(p, access, refresh)), BearerKey) == Some(Some(access))
    ensures Get(Entries(MergeProps(p, access, refresh)), RefreshKey) == Some(refresh)
    ensures forall k :: k != BearerKey && k != RefreshKey ==>
      Get(Entries(MergeProps(p, access, refresh)), k) == Get(p, k)
  {
    var m := MergeProps(p, access, refresh);
    MergePropsUnique(p, access, refresh);
    EntriesPermutes(m);
    var e := Entries(m);
    forall k ensures Get(e, k) == Get(m, k) {
      EntriesGet(m, k);
    }
    forall k ensures Get(Entries(p), k) == Get(p, k) {
      EntriesGet(p, k);
    }
  }

  /**
   * The properties that are written: each key once, the two tokens with the
   * values given, every other key of the file with the value of its last line.
   */
  lemma MergeContents(text: string, access: string, refresh: EnvValue)
    ensures UniqueKeys(MergedEntries(text, access, refresh))
    ensures Get(MergedEntries(text, access, refresh), BearerKey) == Some(Some(access))
    ensures Get(MergedEntries(text, access, refresh), RefreshKey) == Some(refresh)
    ensures forall k :: k != BearerKey && k != RefreshKey ==>
      Get(MergedEntries(text, access, refresh), k) == LastValue(FilePairs(text), k)
  {
    ParseEnvEntries(text);
    MergePropsContents(ParseEnv(text), access, refresh);
  }

  /** The keys the rewrite adds to a file that lacks them, in the order they are added. */
  function Appended(p: Props<EnvValue>): seq<string>
  {
    (if BearerKey in Keys(p) then [] else [BearerKey])
    + (if RefreshKey in Keys(p) then [] else [RefreshKey])
  }

  lemma MergePropsOrder(p: Props<EnvValue>, access: string, refresh: EnvValue)
    requires UniqueKeys(p)
    ensures var e := Entries(MergeProps(p, access, refresh));
      && e == IndexEntries(e) + NamedEntries(e)
      && Ascending(IndexEntries(e))
      && multiset(IndexEntries(e)) == multiset(IndexEntries(p))
      && Keys(NamedEntries(e)) == Keys(NamedEntries(p)) + Appended(p)
  {
    var m := MergeProps(p, access, refresh);
    MergePropsUnique(p, access, refresh);
    EntriesOrder(m);
    MergeIndexEntries(p, access, refresh);
    MergeNamedKeys(p, access, refresh);
  }

  lemma MergeIndexEntries(p: Props<EnvValue>, access: string, refresh: EnvValue)
    requires UniqueKeys(p)
    ensures multiset(IndexEntries(MergeProps(p, access, refresh))) == multiset(IndexEntries(p))
  {
    var q := Entries(p);
    EntriesOrder(p);
    TokenKeysNamed();
    PutIndexEntries(q, BearerKey, Some(access));
    PutIndexEntries(Put(q, BearerKey, Some(access)), RefreshKey, refresh);
  }

  lemma MergeNamedKeys(p: Props<EnvValue>, access: string, refresh: EnvValue)
    requires UniqueKeys(p)
    ensures Keys(NamedEntries(MergeProps(p, access, refresh))) == Keys(NamedEntries(p)) + Appended(p)
  {
    TokenKeysNamed();
    assert BearerKey[0] != RefreshKey[0];
    PutTwoNamedKeys(p, BearerKey, Some(access), RefreshKey, refresh);
  }

  lemma PutTwoNamedKeys<V>(p: Props<V>, k1: string, v1: V, k2: string, v2: V)
    requires UniqueKeys(p)
    requires !IsArrayIndex(k1) && !IsArrayIndex(k2) && k1 != k2
    ensures Keys(NamedEntries(Put(Put(Entries(p), k1, v1), k2, v2)))
         == Keys(NamedEntries(p)) + ((if k1 in Keys(p) then [] else [k1])
                                   + (if k2 in Keys(p) then [] else [k2]))
  {
    var m1 := Put(Entries(p), k1, v1);
    var a1: seq<string> := if k1 in Keys(p) then [] else [k1];
    var a2: seq<string> := if k2 in Keys(p) then [] else [k2];
    PutFirstNamedKey(p, k1, v1);
    PutSecondNamedKey(p, k1, v1, k2, v2);
    ConcatAssoc(Keys(NamedEntries(p)), a1, a2);
  }

  lemma PutFirstNamedKey<V>(p: Props<V>, k1: string, v1: V)
    requires UniqueKeys(p) && !IsArrayIndex(k1)
    ensures Keys(NamedEntries(Put(Entries(p), k1, v1)))
         == Keys(NamedEntries(p)) + (if k1 in Keys(p) then [] else [k1])
  {
    EntriesOrder(p);
    EntriesKeyMember(p, k1);
    PutNamedKeys(Entries(p), k1, v1);
  }

  lemma PutSecondNamedKey<V>(p: Props<V>, k1: string, v1: V, k2: string, v2: V)
    requires UniqueKeys(p) && !IsArrayIndex(k2) && k1 != k2
    ensures Keys(NamedEntries(Put(Put(Entries(p), k1, v1), k2, v2)))
         == Keys(NamedEntries(Put(Entries(p), k1, v1))) + (if k2 in Keys(p) then [] else [k2])
  {
    var m1 := Put(Entries(p), k1, v1);
    EntriesKeyMember(p, k2);
    assert k2 in Keys(m1) <==> k2 in Keys(Entries(p));
    PutNamedKeys(m1, k2, v2);
  }

  lemma ConcatAssoc<T>(a: seq<T>, b: seq<T>, c: seq<T>)
    ensures a + b + c == a + (b + c)
  {
  }

  lemma EntriesKeyMember<V>(p: Props<V>, k: string)
    requires UniqueKeys(p)
    ensures k in Keys(Entries(p)) <==> k in Keys(p)
  {
    EntriesGet(p, k);
  }

  /**
   * The order of the written lines: array-index keys first, in ascending
   * numeric order and with the values they had; then the other keys of the
   * old file in the order they first appeared; then the token keys the file
   * did not have.
   */
  lemma MergeOrder(text: string, access: string, refresh: EnvValue)
    ensures var e := MergedEntries(text, access, refresh);
      && e == IndexEntries(e) + NamedEntries(e)
      && Ascending(IndexEntries(e))
      && multiset(IndexEntries(e)) == multiset(IndexEntries(ParseEnv(text)))
      && Keys(NamedEntries(e)) == Keys(NamedEntries(ParseEnv(text))) + Appended(ParseEnv(text))
  {
    ParseEnvEntries(text);
    MergePropsOrder(ParseEnv(text), access, refresh);
  }

  /** The properties written all make lines that read back as they were written. */
  predicate Writable(e: (string, EnvValue))
  {
    && '=' !in e.0 && '\n' !in e.0 && '\n' !in ValueText(e.1)
    && (e.0 != BearerKey && e.0 != RefreshKey ==> '=' !in ValueText(e.1))
  }

  lemma MergePropsWritable(p: Props<EnvValue>, access: string, refresh: EnvValue)
    requires UniqueKeys(p) && forall e :: e in p ==> Clean(e)
    requires '\n' !in access && (refresh.Some? ==> '\n' !in refresh.value)
    ensures forall e :: e in Entries(MergeProps(p, access, refresh)) ==> Writable(e)
  {
    var xs := Entries(MergeProps(p, access, refresh));
    forall e | e in xs
      ensures e == (RefreshKey, refresh) || e == (BearerKey, Some(access)) || e in p
    {
      MergeMember(p, access, refresh, e);
    }
    AllWritable(xs, p, access, refresh);
  }

  lemma AllWritable(xs: Props<EnvValue>, p: Props<EnvValue>, access: string, refresh: EnvValue)
    requires forall e :: e in p ==> Clean(e)
    requires forall e :: e in xs ==> e == (RefreshKey, refresh) || e == (BearerKey, Some(access)) || e in p
    requires '\n' !in access && (refresh.Some? ==> '\n' !in refresh.value)
    ensures forall e :: e in xs ==> Writable(e)
  {
  }

  /** A written property is one of the two tokens or a property of the file. */
  lemma MergeMember(p: Props<EnvValue>, access: string, refresh: EnvValue, e: (string, EnvValue))
    requires UniqueKeys(p)
    requires e in Entries(MergeProps(p, access, refresh))
    ensures e == (RefreshKey, refresh) || e == (BearerKey, Some(access)) || e in p
  {
    var q := Entries(p);
    var m1 := Put(q, BearerKey, Some(access));
    var m := Put(m1, RefreshKey, refresh);
    MergePropsUnique(p, access, refresh);
    EntriesPermutes(m);
    InPermutation(Entries(m), m, e);
    if e != (RefreshKey, refresh) && e != (BearerKey, Some(access)) {
      PutMembers(m1, RefreshKey, refresh);
      PutMembers(q, BearerKey, Some(access));
      assert e in m1;
      assert e in q;
      EntriesPermutes(p);
      InPermutation(q, p, e);
    }
  }

  lemma InPermutation<T>(a: seq<T>, b: seq<T>, x: T)
    requires multiset(a) == multiset(b) && x in a
    ensures x in b
  {
    assert x in multiset(a);
  }

  lemma NonEmptyAll(lines: seq<string>)
    requires forall i :: 0 <= i < |lines| ==> lines[i] != ""
    ensures NonEmpty(lines) == lines
  {
    if lines != [] {
      NonEmptyAll(lines[1..]);
    }
  }

  /** Written text splits back into its lines. */
  lemma WrittenSplits(e: Props<EnvValue>)
    requires |e| >= 1 && forall x :: x in e ==> Writable(x)
    ensures Split(Written(e), '\n') == LinesOf(TextView(e))
  {
    LinesShape(e);
    SplitJoin(LinesOf(TextView(e)), '\n');
  }

  /** Text that is not empty and whose last character is not a newline. */
  predicate EndsWithoutNewline(s: string)
  {
    |s| >= 1 && s[|s| - 1] != '\n'
  }

  /** Written text is not empty and does not end with a newline. */
  lemma WrittenEnd(e: Props<EnvValue>)
    requires |e| >= 1 && forall x :: x in e ==> Writable(x)
    ensures EndsWithoutNewline(Written(e))
  {
    var lines := LinesOf(TextView(e));
    LinesShape(e);
    var last := lines[|lines| - 1];
    assert last[|last| - 1] != '\n' by {
      assert last[|last| - 1] in last;
    }
    JoinLast(lines, '\n');
  }

  /** Each written line has an `=` after its key and no newline. */
  lemma LinesShape(e: Props<EnvValue>)
    requires forall x :: x in e ==> Writable(x)
    ensures forall i :: 0 <= i < |LinesOf(TextView(e))| ==>
      var line := LinesOf(TextView(e))[i];
      '\n' !in line && '=' in line && line != ""
  {
    var lines := LinesOf(TextView(e));
    forall i | 0 <= i < |lines| ensures '\n' !in lines[i] && '=' in lines[i] && lines[i] != "" {
      assert e[i] in e;
      assert lines[i] == e[i].0 + "=" + ValueText(e[i].1);
      assert lines[i][|e[i].0|] == '=';
    }
  }

  lemma WrittenReadBack(e: Props<EnvValue>)
    requires |e| >= 1 && UniqueKeys(e) && forall x :: x in e ==> Writable(x)
    ensures ParseEnv(Written(e)) == MapValues(e, Reparse)
  {
    WrittenPairs(e);
    MapValuesUnique(e, Reparse);
    ParseUniquePairs(Written(e));
  }

  /** A file whose lines have distinct keys is read as those lines' pairs. */
  lemma ParseUniquePairs(text: string)
    requires UniqueKeys(FilePairs(text))
    ensures ParseEnv(text) == FilePairs(text)
  {
    FromEntriesOfUnique(FilePairs(text));
  }

  lemma WrittenPairs(e: Props<EnvValue>)
    requires |e| >= 1 && forall x :: x in e ==> Writable(x)
    ensures FilePairs(Written(e)) == MapValues(e, Reparse)
  {
    WrittenNonEmptyLines(e);
    PairsReadBack(e);
  }

  lemma WrittenNonEmptyLines(e: Props<EnvValue>)
    requires |e| >= 1 && forall x :: x in e ==> Writable(x)
    ensures NonEmpty(Split(Written(e), '\n')) == LinesOf(TextView(e))
  {
    var lines := LinesOf(TextView(e));
    WrittenSplits(e);
    LinesShape(e);
    NonEmptyAll(lines);
  }

  lemma PairsReadBack(e: Props<EnvValue>)
    requires forall x :: x in e ==> Writable(x)
    ensures PairsOf(LinesOf(TextView(e))) == MapValues(e, Reparse)
  {
    var pairs, r := PairsOf(LinesOf(TextView(e))), MapValues(e, Reparse);
    forall i | 0 <= i < |e| ensures pairs[i] == r[i] {
      LineReadBack(e, i);
    }
  }

  /** One written line reads back as its key and the first `=`-piece of its printed value. */
  lemma LineReadBack(e: Props<EnvValue>, i: nat)
    requires i < |e| && forall x :: x in e ==> Writable(x)
    ensures SplitPair(LinesOf(TextView(e))[i]) == (e[i].0, Reparse(e[i].1))
  {
    assert e[i] in e;
    assert LinesOf(TextView(e))[i] == e[i].0 + "=" + ValueText(e[i].1);
    SplitPairOfLine(e[i].0, ValueText(e[i].1));
  }

  /** The written text splits back into its lines, and every line is `KEY=value`. */
  lemma RewriteLines(text: string, access: string, refresh: EnvValue)
    requires '\n' !in access && (refresh.Some? ==> '\n' !in refresh.value)
    ensures Split(Rewrite(text, access, refresh), '\n') == LinesOf(TextView(MergedEntries(text, access, refresh)))
    ensures forall i :: 0 <= i < |MergedEntries(text, access, refresh)| ==>
      LinesOf(TextView(MergedEntries(text, access, refresh)))[i]
      == MergedEntries(text, access, refresh)[i].0 + "=" + ValueText(MergedEntries(text, access, refresh)[i].1)
  {
    var e := MergedEntries(text, access, refresh);
    MergedWritable(text, access, refresh);
    WrittenSplits(e);
  }

  /** The written text is not empty and does not end with a newline. */
  lemma RewriteEnd(text: string, access: string, refresh: EnvValue)
    requires '\n' !in access && (refresh.Some? ==> '\n' !in refresh.value)
    ensures EndsWithoutNewline(Rewrite(text, access, refresh))
  {
    var e := MergedEntries(text, access, refresh);
    MergedWritable(text, access, refresh);
    WrittenEnd(e);
  }

  /** The written properties are not empty, and each makes a line that reads back. */
  lemma MergedWritable(text: string, access: string, refresh: EnvValue)
    requires '\n' !in access && (refresh.Some? ==> '\n' !in refresh.value)
    ensures |MergedEntries(text, access, refresh)| >= 1
    ensures forall x :: x in MergedEntries(text, access, refresh) ==> Writable(x)
  {
    var e := MergedEntries(text, access, refresh);
    ParseEnvEntries(text);
    MergePropsWritable(ParseEnv(text), access, refresh);
    MergePropsContents(ParseEnv(text), access, refresh);
    assert BearerKey in Keys(e);
    assert |Keys(e)| == |e|;
  }

  /**
   * Rewriting the rewritten file with the same tokens changes nothing, as
   * long as the tokens hold no newline (a newline would turn the rest of a
   * token into a key line of its own).
   */
  lemma RewriteIdempotent(text: string, access: string, refresh: EnvValue)
    requires '\n' !in access && (refresh.Some? ==> '\n' !in refresh.value)
    ensures Rewrite(Rewrite(text, access, refresh), access, refresh) == Rewrite(text, access, refresh)
  {
    var p := ParseEnv(text);
    ParseEnvEntries(text);
    var m := MergeProps(p, access, refresh);
    var e := Entries(m);
    MergePropsWritable(p, access, refresh);
    MergePropsContents(p, access, refresh);
    MergePropsUnique(p, access, refresh);
    assert BearerKey in Keys(e);
    WrittenReadBack(e);
    RewriteAgain(m, access, refresh);
  }

  /**
   * The second merge: the object read back from the written text, merged
   * with the same tokens, is listed and printed exactly as before.
   */
  lemma RewriteAgain(m: Props<EnvValue>, access: string, refresh: EnvValue)
    requires UniqueKeys(m) && UniqueKeys(Entries(m))
    requires Get(Entries(m), BearerKey) == Some(Some(access))
    requires Get(Entries(m), RefreshKey) == Some(refresh)
    requires forall x :: x in Entries(m) ==> Writable(x)
    ensures TextView(Entries(MergeProps(MapValues(Entries(m), Reparse), access, refresh)))
         == TextView(Entries(m))
  {
    var e := Entries(m);
    var p1 := MapValues(e, Reparse);
    EntriesIdempotent(m);
    MapValuesEntries(e, Reparse);
    assert Entries(p1) == p1;
    var m2 := MergeProps(p1, access, refresh);
    MapValuesGet(e, BearerKey, Reparse);
    MapValuesGet(e, RefreshKey, Reparse);
    assert BearerKey in Keys(p1) && RefreshKey in Keys(p1);
    assert Keys(m2) == Keys(e);
    var v2, v1 := TextView(m2), TextView(e);
    forall k ensures Get(v2, k) == Get(v1, k) {
      MapValuesGet(m2, k, ValueText);
      MapValuesGet(e, k, ValueText);
      MapValuesGet(e, k, Reparse);
      if k != BearerKey && k != RefreshKey && Get(e, k).Some? {
        GetMember(e, k, Get(e, k).value);
        var s := ValueText(Get(e, k).value);
        assert '=' !in s;
        assert Split(s, '=') == [s];
      }
    }
    SameKeysSameValues(v2, v1);
    MapValuesEntries(m2, ValueText);
    MapValuesEntries(e, ValueText);
    assert Entries(v1) == v1;
  }
}
