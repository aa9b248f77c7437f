/** Key resolution in `html_format` (src/lib.rs): the bindings `name = value`
    of the macro call become a map, and every key of the template, in
    template order, is looked up in it. Values are the strings the bound
    expressions render to. */
module Resolution {
  import opened Results

  /** One `name = value` argument of the macro call. */
  datatype Binding = Binding(name: string, value: string)

  /** The map built by inserting the bindings in order: a later binding of
      a name replaces an earlier one. */
  function BindingMap(pairs: seq<Binding>): (m: map<string, string>)
    ensures |m| <= |pairs|
  {
    if pairs == [] then map[]
    else
      var last := pairs[|pairs| - 1];
      BindingMap(pairs[..|pairs| - 1])[last.name := last.value]
  }

  /** A name is bound exactly when some binding names it. */
  lemma {:induction false} BindingMapDomain(pairs: seq<Binding>, k: string)
    ensures k in BindingMap(pairs) <==> exists j :: 0 <= j < |pairs| && pairs[j].name == k
    decreases |pairs|
  {
    if pairs != [] {
      var init := pairs[..|pairs| - 1];
      BindingMapDomain(init, k);
      if exists j :: 0 <= j < |init| && init[j].name == k {
        var j :| 0 <= j < |init| && init[j].name == k;
        assert pairs[j].name == k;
      }
      if exists j :: 0 <= j < |pairs| && pairs[j].name == k {
        var j :| 0 <= j < |pairs| && pairs[j].name == k;
        if j < |init| {
          assert init[j].name == k;
        }
      }
    }
  }

  /** With duplicate names, the last binding of a name wins. */
  lemma {:induction false} LastBindingWins(pairs: seq<Binding>, j: nat)
    requires j < |pairs|
    requires forall l :: j < l < |pairs| ==> pairs[l].name != pairs[j].name
    ensures pairs[j].name in BindingMap(pairs)
    ensures BindingMap(pairs)[pairs[j].name] == pairs[j].value
    decreases |pairs|
  {
    if j < |pairs| - 1 {
      var init := pairs[..|pairs| - 1];
      assert init[j] == pairs[j];
      LastBindingWins(init, j);
    }
  }

  /** The `val_map` loop: insert every binding into an initially empty map. */
  method BuildValMap(pairs: seq<Binding>) returns (m: map<string, string>)
    ensures m == BindingMap(pairs)
  {
    m := map[];
    for i := 0 to |pairs|
      invariant m == BindingMap(pairs[..i])
    {
      assert pairs[..i + 1][..i] == pairs[..i];
      m := m[pairs[i].name := pairs[i].value];
    }
    assert pairs[..|pairs|] == pairs;
  }

  /** The `vals_ts` loop: the value of every key in order, or the error for
      the first key without one. */
  function Resolve(keys: seq<string>, m: map<string, string>): (r: Result<seq<string>, FormatError>)
    ensures r.Ok? ==> |r.value| == |keys|
    ensures r.Err? ==> r.error.MissingKey?
  {
    if keys == [] then Ok([])
    else
      match Resolve(keys[..|keys| - 1], m)
      case Err(e) => Err(e)
      case Ok(vals) =>
        var k := keys[|keys| - 1];
        if k in m then Ok(vals + [m[k]]) else Err(MissingKey(k))
  }

  /** Resolution succeeds exactly when every key is bound, and then yields
      the bound value of each key in template order (a repeated key yields
      its value again). Otherwise it names the first unbound key. */
  lemma {:induction false} ResolveSpec(keys: seq<string>, m: map<string, string>)
    ensures Resolve(keys, m).Ok? <==> forall j :: 0 <= j < |keys| ==> keys[j] in m
    ensures Resolve(keys, m).Ok? ==> forall j :: 0 <= j < |keys| ==> Resolve(keys, m).value[j] == m[keys[j]]
    ensures Resolve(keys, m).Err? ==>
      exists j :: 0 <= j < |keys| && Resolve(keys, m).error == MissingKey(keys[j]) && keys[j] !in m
        && forall l :: 0 <= l < j ==> keys[l] in m
    decreases |keys|
  {
    if keys != [] {
      var init := keys[..|keys| - 1];
      ResolveSpec(init, m);
      var n := |init|;
      match Resolve(init, m)
      case Err(e) =>
        var j :| 0 <= j < n && e == MissingKey(init[j]) && init[j] !in m
          && forall l :: 0 <= l < j ==> init[l] in m;
        assert keys[j] == init[j];
        assert forall l :: 0 <= l < j ==> keys[l] == init[l];
      case Ok(vals) =>
        assert forall l :: 0 <= l < n ==> keys[l] == init[l];
    }
  }

  /** Once a prefix of the keys fails, the whole resolution fails the same way. */
  lemma {:induction false} ResolveErrPrefix(keys: seq<string>, m: map<string, string>, i: nat)
    requires i <= |keys| && Resolve(keys[..i], m).Err?
    ensures Resolve(keys, m) == Resolve(keys[..i], m)
    decreases |keys| - i
  {
    if i == |keys| {
      assert keys[..i] == keys;
    } else {
      assert keys[..i + 1][..i] == keys[..i];
      ResolveErrPrefix(keys, m, i + 1);
    }
  }

  /** The resolution loop, returning at the first key without a value. */
  method ResolveKeys(keys: seq<string>, m: map<string, string>) returns (r: Result<seq<string>, FormatError>)
    ensures r == Resolve(keys, m)
  {
    var vals: seq<string> := [];
    for i := 0 to |keys|
      invariant Resolve(keys[..i], m) == Ok(vals)
    {
      assert keys[..i + 1][..i] == keys[..i];
      var k := keys[i];
      if k in m {
        vals := vals + [m[k]];
      } else {
        ResolveErrPrefix(keys, m, i + 1);
        return Err(MissingKey(k));
      }
    }
    assert keys[..|keys|] == keys;
    return Ok(vals);
  }
}
