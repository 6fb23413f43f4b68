/** The module-level CSS-variable cache `CSSVars` with `getCSSVar` and
    `getCSSVars`. The document's computed style is passed in as a snapshot and
    `parseFloat` as a function, since neither is visible to the model. */
module CssVars {
  import opened Js

  /** `window.getComputedStyle(document.documentElement)`: the property names
      it iterates over, in order, and the value of each property. */
  datatype ComputedStyle = ComputedStyle(properties: seq<string>, values: map<string, string>)

  /** `getPropertyValue` yields the empty string for a property it lacks. */
  function GetPropertyValue(style: ComputedStyle, property: string): string {
    if property in style.values then style.values[property] else ""
  }

  /** `doCSSVarConversion(value)`: the number `parseFloat` reads, or `undefined`
      when it reads `NaN`. */
  function DoCssVarConversion(parseFloat: string -> Num, value: string): (v: Value)
    ensures v == Undefined <==> parseFloat(value) == NaN
    ensures v != Undefined ==> v == Number(parseFloat(value))
  {
    if parseFloat(value) == NaN then Undefined else Number(parseFloat(value))
  }

  /** `property.startsWith("--")`. */
  predicate IsCustomProperty(property: string) {
    |property| >= 2 && property[..2] == "--"
  }

  /** The value `getCSSVar` converts for `property` on a cache miss. */
  function Converted(style: ComputedStyle, parseFloat: string -> Num, property: string): Value {
    DoCssVarConversion(parseFloat, GetPropertyValue(style, property))
  }

  /** One `getCSSVar(property)` on the table `vars`: the result and the table
      afterwards. A truthy entry is returned as is; otherwise the property is
      read, converted and stored, even when that gives `undefined`. */
  function GetStep(vars: map<string, Value>, style: ComputedStyle, parseFloat: string -> Num, property: string): (Value, map<string, Value>) {
    var cached := Get(vars, property);
    if Truthy(cached) then (cached, vars)
    else
      var converted := Converted(style, parseFloat, property);
      (converted, vars[property := converted])
  }

  /** One iteration of the loop in `getCSSVars`. */
  function FillStep(vars: map<string, Value>, style: ComputedStyle, parseFloat: string -> Num, property: string): map<string, Value> {
    if !Truthy(Get(vars, property)) && IsCustomProperty(property) then
      vars[property := Converted(style, parseFloat, property)]
    else vars
  }

  /** The table after the loop of `getCSSVars` has visited `names` in order. */
  function Fill(vars: map<string, Value>, style: ComputedStyle, parseFloat: string -> Num, names: seq<string>): map<string, Value>
    decreases |names|
  {
    if names == [] then vars
    else Fill(FillStep(vars, style, parseFloat, names[0]), style, parseFloat, names[1..])
  }

  /** The cache, with `getCSSVar` and `getCSSVars` as its methods. */
  class CssVarCache {
    var vars: map<string, Value>

    /** `let CSSVars = {}`. */
    constructor ()
      ensures vars == map[]
    {
      vars := map[];
    }

    method GetCssVar(style: ComputedStyle, parseFloat: string -> Num, property: string) returns (r: Value)
      modifies this
      ensures (r, vars) == GetStep(old(vars), style, parseFloat, property)
    {
      var cached := Get(vars, property);
      if Truthy(cached) {
        return cached;
      }
      var value := GetPropertyValue(style, property);
      var converted := DoCssVarConversion(parseFloat, value);
      vars := vars[property := converted];
      return converted;
    }

    /** Returns the cache table itself, not a copy. */
    method GetCssVars(style: ComputedStyle, parseFloat: string -> Num) returns (table: CssVarCache)
      modifies this
      ensures table == this
      ensures vars == Fill(old(vars), style, parseFloat, style.properties)
    {
      var names := style.properties;
      for i := 0 to |names|
        invariant Fill(vars, style, parseFloat, names[i..]) == Fill(old(vars), style, parseFloat, names)
      {
        var property := names[i];
        var cached := Get(vars, property);
        assert names[i..][1..] == names[i + 1..];
        if !Truthy(cached) && IsCustomProperty(property) {
          var value := GetPropertyValue(style, property);
          vars := vars[property := DoCssVarConversion(parseFloat, value)];
        }
      }
      table := this;
    }
  }

  /** A hit returns the cached value and leaves the table alone, whatever the
      computed style says now. */
  lemma CacheHit(vars: map<string, Value>, style: ComputedStyle, parseFloat: string -> Num, property: string)
    requires Truthy(Get(vars, property))
    ensures GetStep(vars, style, parseFloat, property) == (vars[property], vars)
  {
  }

  /** A miss stores the converted value under `property` and nothing else. No
      `--` check is made: any property name is cached. */
  lemma CacheMiss(vars: map<string, Value>, style: ComputedStyle, parseFloat: string -> Num, property: string)
    requires !Truthy(Get(vars, property))
    ensures GetStep(vars, style, parseFloat, property).0 == Converted(style, parseFloat, property)
    ensures var after := GetStep(vars, style, parseFloat, property).1;
      after.Keys == vars.Keys + {property} &&
      after[property] == Converted(style, parseFloat, property) &&
      forall q :: q in vars && q != property ==> after[q] == vars[q]
  {
  }

  /** A value that is falsy once cached (`undefined`, `0`) is not memoised:
      the next call reads the computed style again and stores the new
      conversion. */
  lemma FalsyIsReread(vars: map<string, Value>, style: ComputedStyle, style': ComputedStyle, parseFloat: string -> Num, property: string)
    requires !Truthy(GetStep(vars, style, parseFloat, property).0)
    ensures GetStep(GetStep(vars, style, parseFloat, property).1, style', parseFloat, property).0 == Converted(style', parseFloat, property)
    ensures var after := GetStep(vars, style, parseFloat, property).1;
      GetStep(after, style', parseFloat, property).1 == after[property := Converted(style', parseFloat, property)]
  {
    var (r, after) := GetStep(vars, style, parseFloat, property);
    assert Get(after, property) == r;
  }

  /** A truthy result is memoised: the second call returns it again, whatever
      the computed style has become, and changes nothing. */
  lemma TruthyIsMemoised(vars: map<string, Value>, style: ComputedStyle, style': ComputedStyle, parseFloat: string -> Num, property: string)
    requires Truthy(GetStep(vars, style, parseFloat, property).0)
    ensures var (r, after) := GetStep(vars, style, parseFloat, property);
      GetStep(after, style', parseFloat, property) == (r, after)
  {
    var (r, after) := GetStep(vars, style, parseFloat, property);
    assert Get(after, property) == r;
  }

  /** The entry for `q` after the loop of `getCSSVars` over `names`. */
  function Filled(vars: map<string, Value>, style: ComputedStyle, parseFloat: string -> Num, names: seq<string>, q: string): Value {
    if q in names && IsCustomProperty(q) && !Truthy(Get(vars, q)) then Converted(style, parseFloat, q)
    else Get(vars, q)
  }

  /** What `getCSSVars` leaves in the table: every custom property among
      `names` whose entry was falsy now holds its converted value; every other
      key keeps its entry, and the only new keys are those custom properties. */
  lemma {:induction false} FillResult(vars: map<string, Value>, style: ComputedStyle, parseFloat: string -> Num, names: seq<string>)
    ensures forall q :: q in Fill(vars, style, parseFloat, names) <==> q in vars || (q in names && IsCustomProperty(q))
    ensures forall q :: Get(Fill(vars, style, parseFloat, names), q) == Filled(vars, style, parseFloat, names, q)
    decreases |names|
  {
    if names != [] {
      var p := names[0];
      var vars' := FillStep(vars, style, parseFloat, p);
      FillResult(vars', style, parseFloat, names[1..]);
      var r := Fill(vars', style, parseFloat, names[1..]);
      assert r == Fill(vars, style, parseFloat, names);
      forall q ensures q in r <==> q in vars || (q in names && IsCustomProperty(q)) {
        assert q in names <==> q == p || q in names[1..];
      }
      forall q ensures Get(r, q) == Filled(vars, style, parseFloat, names, q) {
        assert q in names <==> q == p || q in names[1..];
        if q == p && IsCustomProperty(q) && !Truthy(Get(vars, q)) {
          assert Get(vars', q) == Converted(style, parseFloat, q);
        } else if q != p {
          assert Get(vars', q) == Get(vars, q);
        }
      }
    }
  }

  /** `getCSSVars` only ever adds or overwrites keys starting with `--`. */
  lemma FillTouchesOnlyCustom(vars: map<string, Value>, style: ComputedStyle, parseFloat: string -> Num, names: seq<string>, q: string)
    requires !IsCustomProperty(q)
    ensures q in Fill(vars, style, parseFloat, names) <==> q in vars
    ensures Get(Fill(vars, style, parseFloat, names), q) == Get(vars, q)
  {
    FillResult(vars, style, parseFloat, names);
  }

  /** `getCSSVars` never overwrites a truthy entry. */
  lemma FillKeepsTruthy(vars: map<string, Value>, style: ComputedStyle, parseFloat: string -> Num, names: seq<string>, q: string)
    requires Truthy(Get(vars, q))
    ensures Get(Fill(vars, style, parseFloat, names), q) == Get(vars, q)
  {
    FillResult(vars, style, parseFloat, names);
  }

  /** After `getCSSVars`, every custom property of the computed style has an
      entry, and a further `getCSSVar` of it returns what a fresh lookup on a
      cold cache would return or the entry that was already truthy. */
  lemma FillCoversCustom(vars: map<string, Value>, style: ComputedStyle, parseFloat: string -> Num, q: string)
    requires q in style.properties && IsCustomProperty(q)
    ensures q in Fill(vars, style, parseFloat, style.properties)
    ensures GetStep(Fill(vars, style, parseFloat, style.properties), style, parseFloat, q).0 ==
      if Truthy(Get(vars, q)) then Get(vars, q) else Converted(style, parseFloat, q)
  {
    FillResult(vars, style, parseFloat, style.properties);
  }

  /** On a cold cache, `getCSSVars` holds exactly the custom properties, each
      with its converted value. */
  lemma ColdFill(style: ComputedStyle, parseFloat: string -> Num)
    ensures var table := Fill(map[], style, parseFloat, style.properties);
      (forall q :: q in table <==> q in style.properties && IsCustomProperty(q)) &&
      forall q :: q in table ==> table[q] == Converted(style, parseFloat, q)
  {
    FillResult(map[], style, parseFloat, style.properties);
    var table := Fill(map[], style, parseFloat, style.properties);
    forall q | q in table ensures table[q] == Converted(style, parseFloat, q) {
      assert Get(table, q) == table[q];
    }
  }
}
