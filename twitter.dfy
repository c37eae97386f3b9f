/**
 * The request normalisers of src/utils/twitter.ts: the request interceptor
 * that flattens query-parameter values before axios serialises them
 * (lines 13-19), and the table from the generated client's HTTP methods to
 * axios methods (lines 36-48).
 */
module Twitter {
  import opened Wrappers
  import opened JsStrings
  import opened JsObjects

  /** The JavaScript values a query parameter can hold. Numbers are integers here. */
  datatype JsValue =
    | Undefined
    | Null
    | Bool(b: bool)
    | Num(n: int)
    | Str(s: string)
    | Arr(elems: seq<JsValue>)
    | Obj(props: seq<(string, JsValue)>)

  /** The exception that ends the interceptor. */
  datatype JsError = TypeError

  /** `typeof v === 'object'`, which holds for `null` as well. */
  predicate IsObject(v: JsValue)
  {
    v.Null? || v.Arr? || v.Obj?
  }

  /** JavaScript truthiness. */
  predicate Truthy(v: JsValue)
  {
    match v
    case Undefined => false
    case Null => false
    case Bool(b) => b
    case Num(n) => n != 0
    case Str(s) => s != ""
    case Arr(_) => true
    case Obj(_) => true
  }

  /** The decimal digits of `n`. */
  function NatText(n: nat): (s: string)
    ensures |s| >= 1 && ',' !in s
    decreases n
  {
    if n < 10 then [('0' as int + n) as char]
    else NatText(n / 10) + [('0' as int + n % 10) as char]
  }

  /** `String(n)` for an integer. */
  function IntText(n: int): (s: string)
    ensures ',' !in s
  {
    if n < 0 then "-" + NatText(-n) else NatText(n)
  }

  /**
   * How `Array.prototype.join` prints one element: `undefined` and `null` as
   * nothing, arrays by joining their own elements, plain objects as
   * `[object Object]`.
   */
  function ElementText(v: JsValue): string
    decreases v, 1
  {
    match v
    case Undefined => ""
    case Null => ""
    case Bool(b) => if b then "true" else "false"
    case Num(n) => IntText(n)
    case Str(s) => s
    case Arr(xs) => Join(ElementTexts(xs), ',')
    case Obj(_) => "[object Object]"
  }

  function ElementTexts(xs: seq<JsValue>): (r: seq<string>)
    ensures |r| == |xs|
    decreases xs, 0
  {
    if xs == [] then [] else [ElementText(xs[0])] + ElementTexts(xs[1..])
  }

  /** `xs.join()`: the elements printed and separated by `,`. */
  function JoinText(xs: seq<JsValue>): string
  {
    Join(ElementTexts(xs), ',')
  }

  /** `v['value']` on a plain object: its own `value` property, or `undefined`. */
  function ValueField(props: seq<(string, JsValue)>): JsValue
  {
    match Get(props, "value")
    case None => Undefined
    case Some(x) => x
  }

  /** The key `Object.fromEntries` gives the empty entry `[]`: `undefined` as a property key. */
  const StrayKey: string := "undefined"

  /** An object parameter whose `value` is neither an array nor truthy: the interceptor drops its key. */
  predicate Dropped(v: JsValue)
  {
    v.Obj? && !ValueField(v.props).Arr? && !Truthy(ValueField(v.props))
  }

  /**
   * The callback given to `.map` for one `[key, value]` entry. A value that is
   * not an object is kept; an array is joined with `,`; an object whose `value`
   * is an array is replaced by that array joined; an object with a truthy
   * `value` is replaced by that value; any other object gives the empty entry,
   * which `Object.fromEntries` reads as the key `undefined` with the value
   * `undefined`. Reading `value` of `null` throws.
   */
  function FlattenEntry(e: (string, JsValue)): (r: Result<(string, JsValue), JsError>)
    ensures r.Err? <==> e.1.Null?
    ensures !IsObject(e.1) ==> r == Ok(e)
    ensures e.1.Arr? ==> r == Ok((e.0, Str(JoinText(e.1.elems))))
    ensures e.1.Obj? && ValueField(e.1.props).Arr? ==>
      r == Ok((e.0, Str(JoinText(ValueField(e.1.props).elems))))
    ensures e.1.Obj? && !ValueField(e.1.props).Arr? && Truthy(ValueField(e.1.props)) ==>
      r == Ok((e.0, ValueField(e.1.props)))
    ensures r.Ok? && Dropped(e.1) ==> r.value == (StrayKey, Undefined)
    ensures r.Ok? ==> (r.value.0 == e.0 <==> !Dropped(e.1) || e.0 == StrayKey)
    ensures r.Ok? ==> !r.value.1.Arr? && !r.value.1.Null?
  {
    var (k, v) := e;
    if !IsObject(v) then Ok(e)
    else if v.Arr? then Ok((k, Str(JoinText(v.elems))))
    else if v.Null? then Err(TypeError)
    else
      var inner := ValueField(v.props);
      if inner.Arr? then Ok((k, Str(JoinText(inner.elems))))
      else if Truthy(inner) then Ok((k, inner))
      else Ok((StrayKey, Undefined))
  }

  /** `entries.map(callback)`: every entry flattened in order, or the first exception. */
  function FlattenEach(es: Props<JsValue>): (r: Result<Props<JsValue>, JsError>)
    ensures r.Err? <==> exists i :: 0 <= i < |es| && es[i].1.Null?
    ensures r.Ok? ==> |r.value| == |es| && forall i :: 0 <= i < |es| ==> FlattenEntry(es[i]) == Ok(r.value[i])
  {
    if es == [] then Ok([])
    else
      match FlattenEntry(es[0])
      case Err(e) => Err(e)
      case Ok(head) =>
        match FlattenEach(es[1..])
        case Err(e) =>
          assert exists i :: 0 <= i < |es[1..]| && es[1..][i].1.Null?;
          Err(e)
        case Ok(tail) =>
          assert forall i :: 1 <= i < |es| ==> es[i] == es[1..][i - 1];
          Ok([head] + tail)
  }

  /**
   * The interceptor as written:
   * `Object.fromEntries(Object.entries(request.params).map(...))`.
   * `None` stands for `request.params` being `undefined`, on which
   * `Object.entries` throws.
   */
  function FlattenParams(params: Option<Props<JsValue>>): (r: Result<Props<JsValue>, JsError>)
    ensures params.None? ==> r == Err(TypeError)
    ensures r.Ok? ==> UniqueKeys(r.value)
  {
    match params
    case None => Err(TypeError)
    case Some(p) =>
      match FlattenEach(Entries(p))
      case Err(e) => Err(e)
      case Ok(es) => Ok(FromEntries(es))
  }

  /** A request without query parameters makes the interceptor throw. */
  lemma AbsentParamsThrow()
    ensures FlattenParams(None) == Err(TypeError)
  {
  }

  /**
   * The interceptor as evidently intended: absent query parameters stay
   * absent, present ones are flattened as before.
   */
  function FlattenParamsOrAbsent(params: Option<Props<JsValue>>): (r: Result<Option<Props<JsValue>>, JsError>)
    ensures r.Ok? && r.value.Some? ==> UniqueKeys(r.value.value)
    ensures r.Ok? ==> (r.value.None? <==> params.None?)
  {
    match params
    case None => Ok(None)
    case Some(p) =>
      match FlattenParams(params)
      case Err(e) => Err(e)
      case Ok(q) => Ok(Some(q))
  }

  /**
   * The corrected interceptor never fails for a request without parameters,
   * fails on present parameters exactly when a value is `null`, and otherwise
   * agrees with the interceptor as written.
   */
  lemma FlattenParamsOrAbsentSpec(params: Option<Props<JsValue>>)
    requires params.Some? ==> UniqueKeys(params.value)
    ensures params.None? ==> FlattenParamsOrAbsent(params) == Ok(None)
    ensures params.Some? ==>
      (FlattenParamsOrAbsent(params).Err? <==> exists e :: e in params.value && e.1.Null?)
    ensures params.Some? && FlattenParams(params).Ok? ==>
      FlattenParamsOrAbsent(params) == Ok(Some(FlattenParams(params).value))
  {
    if params.Some? {
      NullListed(params.value);
    }
  }

  /** `Object.entries` lists a `null` value exactly when the object holds one. */
  lemma NullListed(p: Props<JsValue>)
    requires UniqueKeys(p)
    ensures (exists i :: 0 <= i < |Entries(p)| && Entries(p)[i].1.Null?) <==> (exists e :: e in p && e.1.Null?)
  {
    var es := Entries(p);
    EntriesPermutes(p);
    if exists i :: 0 <= i < |es| && es[i].1.Null? {
      var i :| 0 <= i < |es| && es[i].1.Null?;
      assert es[i] in multiset(p);
    }
    if exists e :: e in p && e.1.Null? {
      var e :| e in p && e.1.Null?;
      assert e in multiset(es);
      var i :| 0 <= i < |es| && es[i] == e;
    }
  }

  /**
   * After the interceptor no parameter value is an array or `null`: axios
   * serialises each parameter as a single `key=value` pair.
   */
  lemma FlattenedIsFlat(p: Props<JsValue>)
    requires FlattenParams(Some(p)).Ok?
    ensures forall e :: e in FlattenParams(Some(p)).value ==> !e.1.Arr? && !e.1.Null?
  {
    FlattenEachFlat(Entries(p));
    FromEntriesMembers(FlattenEach(Entries(p)).value);
  }

  lemma FlattenEachFlat(es: Props<JsValue>)
    requires FlattenEach(es).Ok?
    ensures forall e :: e in FlattenEach(es).value ==> !e.1.Arr? && !e.1.Null?
  {
    var r := FlattenEach(es).value;
    forall e | e in r
      ensures !e.1.Arr? && !e.1.Null?
    {
      var i :| 0 <= i < |r| && r[i] == e;
      assert FlattenEntry(es[i]) == Ok(e);
    }
  }

  /** A value that the interceptor produced is left alone by it, unless it is an object. */
  lemma FlattenEntryIdempotent(e: (string, JsValue))
    requires FlattenEntry(e).Ok? && !FlattenEntry(e).value.1.Obj?
    ensures FlattenEntry(FlattenEntry(e).value) == FlattenEntry(e)
  {
  }

  /** A parameter array of strings without commas can be split back out of its joined form. */
  lemma JoinedArraySplits(strs: seq<string>)
    requires |strs| >= 1 && forall i :: 0 <= i < |strs| ==> ',' !in strs[i]
    ensures Split(JoinText(StrValues(strs)), ',') == strs
  {
    StrValueTexts(strs);
    SplitJoin(strs, ',');
  }

  /** Strings as JavaScript string values. */
  function StrValues(strs: seq<string>): (r: seq<JsValue>)
    ensures |r| == |strs|
  {
    if strs == [] then [] else [Str(strs[0])] + StrValues(strs[1..])
  }

  lemma {:induction false} StrValueTexts(strs: seq<string>)
    ensures ElementTexts(StrValues(strs)) == strs
  {
    if strs != [] {
      StrValueTexts(strs[1..]);
      assert StrValues(strs)[1..] == StrValues(strs[1..]);
    }
  }

  /**
   * Without `null` values and without dropped keys, the output has one
   * property per parameter, in the order `Object.entries` lists them, each
   * with its flattened value.
   */
  lemma FlattenKeepsEntries(p: Props<JsValue>)
    requires UniqueKeys(p)
    requires forall e :: e in p ==> Kept(e)
    ensures FlattenParams(Some(p)).Ok?
    ensures var out := FlattenParams(Some(p)).value;
      && Keys(out) == Keys(Entries(p))
      && forall i :: 0 <= i < |out| ==> Ok(out[i]) == FlattenEntry(Entries(p)[i])
  {
    var es := Entries(p);
    EntriesPermutes(p);
    EntriesKept(p, es);
    FlattenEachKeys(es);
    var r := FlattenEach(es).value;
    assert UniqueKeys(r);
    FromEntriesOfUnique(r);
  }

  /** An entry the interceptor neither rejects nor drops. */
  predicate Kept(e: (string, JsValue))
  {
    !e.1.Null? && !Dropped(e.1)
  }

  lemma EntriesKept(p: Props<JsValue>, es: Props<JsValue>)
    requires multiset(es) == multiset(p)
    requires forall e :: e in p ==> Kept(e)
    ensures forall i :: 0 <= i < |es| ==> Kept(es[i])
  {
    forall i | 0 <= i < |es| ensures Kept(es[i]) {
      assert es[i] in multiset(p);
    }
  }

  lemma FlattenEachKeys(es: Props<JsValue>)
    requires forall i :: 0 <= i < |es| ==> Kept(es[i])
    ensures FlattenEach(es).Ok? && Keys(FlattenEach(es).value) == Keys(es)
  {
    var r := FlattenEach(es).value;
    forall i | 0 <= i < |es| ensures Keys(r)[i] == Keys(es)[i] {
      assert FlattenEntry(es[i]) == Ok(r[i]);
    }
  }

  /** A dropped object parameter leaves a property named `undefined` behind. */
  lemma DroppedLeavesStrayKey(p: Props<JsValue>, i: nat)
    requires i < |Entries(p)| && Dropped(Entries(p)[i].1)
    requires FlattenParams(Some(p)).Ok?
    ensures StrayKey in Keys(FlattenParams(Some(p)).value)
  {
    var r := FlattenEach(Entries(p)).value;
    assert Keys(r)[i] == StrayKey;
  }

  /** The generated client's HTTP methods. */
  datatype HttpMethod = GET | PUT | POST | DELETE | OPTIONS | HEAD | PATCH | TRACE

  /** The axios methods the table uses. */
  datatype AxiosMethod = AxiosGet | AxiosPut | AxiosPost | AxiosDelete | AxiosOptions | AxiosHead | AxiosPatch

  function HttpName(m: HttpMethod): string
  {
    match m
    case GET => "GET"
    case PUT => "PUT"
    case POST => "POST"
    case DELETE => "DELETE"
    case OPTIONS => "OPTIONS"
    case HEAD => "HEAD"
    case PATCH => "PATCH"
    case TRACE => "TRACE"
  }

  function AxiosName(a: AxiosMethod): string
  {
    match a
    case AxiosGet => "GET"
    case AxiosPut => "PUT"
    case AxiosPost => "POST"
    case AxiosDelete => "DELETE"
    case AxiosOptions => "OPTIONS"
    case AxiosHead => "HEAD"
    case AxiosPatch => "PATCH"
  }

  /** `convertHttpMethodToAxiosMethod`: the `patterns` table. */
  function ToAxiosMethod(m: HttpMethod): (a: AxiosMethod)
    ensures m != TRACE ==> AxiosName(a) == HttpName(m)
  {
    match m
    case GET => AxiosGet
    case PUT => AxiosPut
    case POST => AxiosPost
    case DELETE => AxiosDelete
    case OPTIONS => AxiosOptions
    case HEAD => AxiosHead
    case PATCH => AxiosPatch
    case TRACE => AxiosPost
  }

  /** The method of the same name, for every axios method the table produces. */
  function FromAxiosMethod(a: AxiosMethod): (m: HttpMethod)
    ensures HttpName(m) == AxiosName(a)
  {
    match a
    case AxiosGet => GET
    case AxiosPut => PUT
    case AxiosPost => POST
    case AxiosDelete => DELETE
    case AxiosOptions => OPTIONS
    case AxiosHead => HEAD
    case AxiosPatch => PATCH
  }

  /**
   * Every method maps to the axios method of the same name except `TRACE`,
   * which becomes `POST`; every axios method is reached.
   */
  lemma MethodTable(m: HttpMethod, a: AxiosMethod)
    ensures m != TRACE ==> AxiosName(ToAxiosMethod(m)) == HttpName(m) && FromAxiosMethod(ToAxiosMethod(m)) == m
    ensures ToAxiosMethod(TRACE) == ToAxiosMethod(POST) == AxiosPost
    ensures ToAxiosMethod(FromAxiosMethod(a)) == a
  {
  }
}
