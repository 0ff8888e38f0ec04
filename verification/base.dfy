/** The contract every BinData data object inherits from `BinData::Base`:
    parameter validation at construction, the `check_offset` rule applied
    before reading, and the `readwrite` switch. Parameters arrive already
    evaluated; deferred (lazy) evaluation is not part of this model. */
module Base {
  import opened Results

  type Key = string

  /** One entry of a bit field's `:fields` list: `[name, bit_length, params]`,
      of whose params only `:initial_value` is kept. */
  datatype FieldDecl = FieldDecl(name: string, bitLength: nat, initialValue: Option<nat>)

  /** The evaluated value of a parameter. */
  datatype Value =
    | Nil
    | Bool(b: bool)
    | Int(i: int)
    | Text(s: string)
    | Fields(decls: seq<FieldDecl>)

  /** The parameters a class declares, in declaration order. */
  datatype ParamSpec = ParamSpec(mandatory: seq<Key>, optional: seq<Key>)

  /** The optional parameters `Base` itself declares. */
  const BaseOptional: seq<Key> := ["check_offset", "readwrite"]

  /** A constructed object's parameters, split into the ones its class
      knows and the extra ones handed to its evaluation environment. */
  datatype Config = Config(params: map<Key, Value>, extra: map<Key, Value>)

  predicate Distinct(s: seq<Key>) {
    forall i, j :: 0 <= i < j < |s| ==> s[i] != s[j]
  }

  /** `Array#uniq`: the first occurrence of each element, in order. */
  function Dedup(s: seq<Key>): (r: seq<Key>)
    ensures forall x :: x in r <==> x in s
    ensures Distinct(r)
  {
    if |s| == 0 then []
    else
      var d := Dedup(s[..|s| - 1]);
      if s[|s| - 1] in d then d else d + [s[|s| - 1]]
  }

  /** `x` occurs in `s` before any occurrence of `y`. */
  predicate OccursBefore(s: seq<Key>, x: Key, y: Key) {
    exists p :: 0 <= p < |s| && s[p] == x && y !in s[..p]
  }

  /** `uniq` keeps the elements in the order of their first occurrences. */
  lemma {:induction false} DedupOrder(s: seq<Key>)
    ensures forall i, j :: 0 <= i < j < |Dedup(s)| ==> OccursBefore(s, Dedup(s)[i], Dedup(s)[j])
  {
    if |s| > 0 {
      var n := |s| - 1;
      var init := s[..n];
      var d := Dedup(init);
      var r := Dedup(s);
      DedupOrder(init);
      forall i, j | 0 <= i < j < |r| ensures OccursBefore(s, r[i], r[j]) {
        assert r[i] == d[i];
        if j < |d| {
          assert r[j] == d[j] && OccursBefore(init, d[i], d[j]);
          var p :| 0 <= p < |init| && init[p] == d[i] && d[j] !in init[..p];
          assert s[..p] == init[..p];
        } else {
          assert r[j] == s[n] && s[n] !in init;
          assert d[i] in d;
          var p :| 0 <= p < |init| && init[p] == d[i];
          assert s[..p] == init[..p];
          assert forall x :: x in init[..p] ==> x in init;
        }
      }
    }
  }

  /** A sequence without duplicates is its own `uniq`. */
  lemma {:induction false} DedupDistinct(s: seq<Key>)
    requires Distinct(s)
    ensures Dedup(s) == s
  {
    if |s| > 0 {
      var init := s[..|s| - 1];
      assert Distinct(init);
      DedupDistinct(init);
      assert s[|s| - 1] !in init;
      assert init + [s[|s| - 1]] == s;
    }
  }

  /** `parameters`: mandatory then optional, without duplicates. */
  function Parameters(spec: ParamSpec): (r: seq<Key>)
    ensures forall k :: k in r <==> k in spec.mandatory || k in spec.optional
    ensures Distinct(r)
  {
    Dedup(spec.mandatory + spec.optional)
  }

  // ---------------------------------------------------------------------------
  // Supplied parameters: a Ruby hash, i.e. distinct keys in insertion order

  function Keys(ps: seq<(Key, Value)>): set<Key> {
    set i | 0 <= i < |ps| :: ps[i].0
  }

  predicate DistinctKeys(ps: seq<(Key, Value)>) {
    forall i, j :: 0 <= i < j < |ps| ==> ps[i].0 != ps[j].0
  }

  predicate NilFree(ps: seq<(Key, Value)>) {
    forall i :: 0 <= i < |ps| ==> ps[i].1 != Nil
  }

  /** The value stored under `k`. */
  function ValueOf(ps: seq<(Key, Value)>, k: Key): (v: Value)
    requires k in Keys(ps)
    ensures exists i :: 0 <= i < |ps| && ps[i] == (k, v)
  {
    if ps[0].0 == k then ps[0].1
    else
      assert k in Keys(ps[1..]) by {
        var i :| 0 <= i < |ps| && ps[i].0 == k;
        assert ps[1..][i - 1].0 == k;
      }
      ValueOf(ps[1..], k)
  }

  /** `:readwrite` defaults to true when it is not supplied. */
  function WithDefault(ps: seq<(Key, Value)>): (r: seq<(Key, Value)>)
    requires DistinctKeys(ps)
    ensures DistinctKeys(r) && Keys(r) == Keys(ps) + {"readwrite"}
    ensures NilFree(r) <==> NilFree(ps)
    ensures forall k :: k in Keys(ps) ==> ValueOf(r, k) == ValueOf(ps, k)
    ensures "readwrite" !in Keys(ps) ==> ValueOf(r, "readwrite") == Bool(true)
  {
    if "readwrite" in Keys(ps) then ps
    else
      var r := ps + [("readwrite", Bool(true))];
      assert r[|ps|].0 == "readwrite";
      assert forall i :: 0 <= i < |ps| ==> r[i] == ps[i];
      forall k | k in Keys(ps)
        ensures ValueOf(r, k) == ValueOf(ps, k)
      {
        ValueOfPrefix(ps, [("readwrite", Bool(true))], k);
      }
      ValueOfAt(r, |ps|);
      r
  }

  /** Appending entries does not change the value of a key already present. */
  lemma {:induction false} ValueOfPrefix(ps: seq<(Key, Value)>, more: seq<(Key, Value)>, k: Key)
    requires k in Keys(ps)
    ensures k in Keys(ps + more) && ValueOf(ps + more, k) == ValueOf(ps, k)
  {
    var i :| 0 <= i < |ps| && ps[i].0 == k;
    assert (ps + more)[i].0 == k;
    if ps[0].0 != k {
      assert (ps + more)[1..] == ps[1..] + more;
      assert ps[1..][i - 1].0 == k;
      ValueOfPrefix(ps[1..], more, k);
    }
  }

  /** With distinct keys, the value of `ps[i].0` is `ps[i].1`. */
  lemma {:induction false} ValueOfAt(ps: seq<(Key, Value)>, i: nat)
    requires DistinctKeys(ps) && i < |ps|
    ensures ps[i].0 in Keys(ps) && ValueOf(ps, ps[i].0) == ps[i].1
  {
    if i > 0 {
      assert ps[0].0 != ps[i].0;
      assert DistinctKeys(ps[1..]);
      assert ps[1..][i - 1] == ps[i];
      ValueOfAt(ps[1..], i - 1);
    }
  }

  // ---------------------------------------------------------------------------
  // Construction

  /** `mandatory[i]` is the first mandatory parameter not among `keys`. */
  predicate MissingAt(mandatory: seq<Key>, keys: set<Key>, i: int) {
    && 0 <= i < |mandatory|
    && mandatory[i] !in keys
    && forall j :: 0 <= j < i ==> mandatory[j] in keys
  }

  /** The first mandatory parameter that is not supplied. */
  function FirstMissing(mandatory: seq<Key>, keys: set<Key>): (r: Option<Key>)
    ensures r.None? <==> forall m :: m in mandatory ==> m in keys
    ensures r.Some? ==> exists i :: MissingAt(mandatory, keys, i) && mandatory[i] == r.value
  {
    if |mandatory| == 0 then None
    else if mandatory[0] !in keys then Some(mandatory[0])
    else
      var r := FirstMissing(mandatory[1..], keys);
      FirstMissingStep(mandatory, keys, r);
      r
  }

  lemma {:induction false} FirstMissingStep(mandatory: seq<Key>, keys: set<Key>, r: Option<Key>)
    requires |mandatory| > 0 && mandatory[0] in keys
    requires r.Some? ==> exists i :: MissingAt(mandatory[1..], keys, i) && mandatory[1..][i] == r.value
    ensures r.Some? ==> exists i :: MissingAt(mandatory, keys, i) && mandatory[i] == r.value
  {
    if r.Some? {
      var i :| MissingAt(mandatory[1..], keys, i) && mandatory[1..][i] == r.value;
      assert mandatory[i + 1] == r.value;
      forall j | 0 <= j < i + 1 ensures mandatory[j] in keys {
        if j > 0 { assert mandatory[j] == mandatory[1..][j - 1]; }
      }
    }
  }

  /** `ps[i]` is the first entry whose value is nil. */
  predicate NilAt(ps: seq<(Key, Value)>, i: int) {
    && 0 <= i < |ps|
    && ps[i].1 == Nil
    && forall j :: 0 <= j < i ==> ps[j].1 != Nil
  }

  /** The parameter loop: refuse a nil value, otherwise file each entry
      under the known or the extra parameters. */
  function Partition(ps: seq<(Key, Value)>, known: seq<Key>): (r: Result<Config>)
    requires DistinctKeys(ps)
    ensures r.Ok? <==> NilFree(ps)
    ensures r.Err? ==> exists i :: NilAt(ps, i) && r.error == NilParameter(ps[i].0)
    ensures r.Ok? ==> r.value.params.Keys == (set k | k in Keys(ps) && k in known)
    ensures r.Ok? ==> r.value.extra.Keys == (set k | k in Keys(ps) && k !in known)
    ensures r.Ok? ==> forall k :: k in r.value.params ==> k in Keys(ps) && r.value.params[k] == ValueOf(ps, k)
    ensures r.Ok? ==> forall k :: k in r.value.extra ==> k in Keys(ps) && r.value.extra[k] == ValueOf(ps, k)
  {
    if |ps| == 0 then Ok(Config(map[], map[]))
    else if ps[0].1 == Nil then Err(NilParameter(ps[0].0))
    else
      assert DistinctKeys(ps[1..]);
      var rest := Partition(ps[1..], known);
      PartitionStep(ps, known, rest);
      if rest.Err? then rest
      else
        var (k, v) := ps[0];
        if k in known then Ok(rest.value.(params := rest.value.params[k := v]))
        else Ok(rest.value.(extra := rest.value.extra[k := v]))
  }

  /** The facts about the head entry that `Partition`'s step needs. */
  lemma {:induction false} PartitionStep(ps: seq<(Key, Value)>, known: seq<Key>, rest: Result<Config>)
    requires DistinctKeys(ps) && |ps| > 0 && ps[0].1 != Nil
    requires rest.Ok? <==> NilFree(ps[1..])
    requires rest.Err? ==> exists i :: NilAt(ps[1..], i) && rest.error == NilParameter(ps[1..][i].0)
    ensures Keys(ps) == Keys(ps[1..]) + {ps[0].0} && ps[0].0 !in Keys(ps[1..])
    ensures NilFree(ps) <==> NilFree(ps[1..])
    ensures ValueOf(ps, ps[0].0) == ps[0].1
    ensures forall k :: k in Keys(ps[1..]) ==> ValueOf(ps, k) == ValueOf(ps[1..], k)
    ensures rest.Err? ==> exists i :: NilAt(ps, i) && rest.error == NilParameter(ps[i].0)
  {
    assert ps == [ps[0]] + ps[1..];
    forall k | k in Keys(ps) ensures k in Keys(ps[1..]) + {ps[0].0} {
      var i :| 0 <= i < |ps| && ps[i].0 == k;
      if i > 0 { assert ps[1..][i - 1].0 == k; }
    }
    if !NilFree(ps[1..]) {
      var i :| 0 <= i < |ps[1..]| && ps[1..][i].1 == Nil;
      assert ps[i + 1].1 == Nil;
    }
    if rest.Err? {
      var i :| NilAt(ps[1..], i) && rest.error == NilParameter(ps[1..][i].0);
      assert ps[i + 1] == ps[1..][i];
      assert forall j :: 0 <= j < i + 1 ==> ps[j].1 != Nil by {
        forall j | 0 <= j < i + 1 ensures ps[j].1 != Nil {
          if j > 0 { assert ps[j] == ps[1..][j - 1]; }
        }
      }
    }
  }

  /** `Base#initialize`: default `:readwrite`, insist on every mandatory
      parameter, refuse nil values, and split known from extra parameters. */
  function Configure(spec: ParamSpec, supplied: seq<(Key, Value)>): (r: Result<Config>)
    requires DistinctKeys(supplied)
    ensures r.Ok? <==>
      (forall m :: m in spec.mandatory ==> m in Keys(supplied) || m == "readwrite") && NilFree(supplied)
    ensures r.Err? && r.error.MissingParameter? ==>
      r.error.key in spec.mandatory && r.error.key !in Keys(supplied)
    ensures r.Err? && !(r.error.MissingParameter?) ==> r.error.NilParameter?
    ensures (exists m :: m in spec.mandatory && m !in Keys(supplied) + {"readwrite"}) ==>
      r.Err? && r.error.MissingParameter?
    ensures r.Ok? ==> var c := r.value;
      && c.params.Keys + c.extra.Keys == Keys(supplied) + {"readwrite"}
      && c.params.Keys !! c.extra.Keys
      && (forall k :: k in c.params ==> k in Parameters(spec))
      && (forall k :: k in c.extra ==> k !in Parameters(spec))
      && (forall m :: m in spec.mandatory ==> m in c.params)
  {
    var ps := WithDefault(supplied);
    match FirstMissing(spec.mandatory, Keys(ps))
    case Some(m) => Err(MissingParameter(m))
    case None => Partition(ps, Parameters(spec))
  }

  /** Every stored parameter has the value it was supplied with, `:readwrite`
      true when it was not supplied, and no stored value is nil. */
  lemma {:induction false} ConfigureValues(spec: ParamSpec, supplied: seq<(Key, Value)>)
    requires DistinctKeys(supplied)
    ensures var r := Configure(spec, supplied);
      r.Ok? ==>
        && (forall k :: k in r.value.params ==> r.value.params[k] != Nil)
        && (forall k :: k in r.value.extra ==> r.value.extra[k] != Nil)
        && (forall k :: k in r.value.params && k in Keys(supplied) ==> r.value.params[k] == ValueOf(supplied, k))
        && (forall k :: k in r.value.extra && k in Keys(supplied) ==> r.value.extra[k] == ValueOf(supplied, k))
        && ("readwrite" in Parameters(spec) && "readwrite" !in Keys(supplied) ==>
              r.value.params["readwrite"] == Bool(true))
  {
    var r := Configure(spec, supplied);
    if r.Ok? {
      var ps := WithDefault(supplied);
      forall k | k in Keys(ps) ensures ValueOf(ps, k) != Nil {
        var i :| 0 <= i < |ps| && ps[i] == (k, ValueOf(ps, k));
      }
    }
  }

  // ---------------------------------------------------------------------------
  // Using the parameters

  /** `check_offset`, run before every read with the stream position and
      the mark the outermost `read` recorded. */
  function CheckOffset(params: map<Key, Value>, pos: int, mark: int): (r: Result<()>)
    ensures r.Ok? <==> "check_offset" !in params || params["check_offset"] in {Bool(true), Int(pos - mark)}
    ensures r.Err? && params["check_offset"] in {Nil, Bool(false)} ==> r.error == OffsetNotAsExpected
    ensures r.Err? && params["check_offset"] !in {Nil, Bool(false)} ==> r.error == OffsetMismatch(pos - mark)
  {
    if "check_offset" !in params then Ok(())
    else
      match params["check_offset"]
      case Nil => Err(OffsetNotAsExpected)
      case Bool(b) => if b then Ok(()) else Err(OffsetNotAsExpected)
      case Int(expected) => if expected == pos - mark then Ok(()) else Err(OffsetMismatch(pos - mark))
      case Text(_) => Err(OffsetMismatch(pos - mark))
      case Fields(_) => Err(OffsetMismatch(pos - mark))
  }

  /** `eval_param(:readwrite) != false`. */
  predicate Enabled(params: map<Key, Value>) {
    !("readwrite" in params && params["readwrite"] == Bool(false))
  }

  /** Without a `:readwrite` parameter, or with anything but false, I/O is on. */
  lemma {:induction false} EnabledUnlessFalse(spec: ParamSpec, supplied: seq<(Key, Value)>)
    requires DistinctKeys(supplied) && "readwrite" in Parameters(spec)
    ensures var r := Configure(spec, supplied);
      r.Ok? ==> (Enabled(r.value.params) <==>
        !("readwrite" in Keys(supplied) && ValueOf(supplied, "readwrite") == Bool(false)))
  {
    ConfigureValues(spec, supplied);
  }
}
