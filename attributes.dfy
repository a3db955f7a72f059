/** Extraction of the `pre` and `post` condition strings from a function's attributes. */
module Attributes {
  import opened Syntax
  import opened Outcome

  /** A `name = "value"` parameter with a string literal, found inside a list attribute. */
  datatype Param = Param(name: string, value: string)

  /** The only parameter names an annotation may use. */
  predicate IsConditionKey(name: string)
  {
    name == "pre" || name == "post"
  }

  /** The string parameter an item contributes: only name-value items with a string literal. */
  function ItemParam(item: NestedMetaItem): seq<Param>
  {
    match item
    case MetaItem(NameValue(name, Str(value))) => [Param(name, value)]
    case _ => []
  }

  /** The string parameters of a sequence of list items, in order. */
  function ItemParams(items: seq<NestedMetaItem>): seq<Param>
  {
    if items == [] then []
    else ItemParams(items[..|items| - 1]) + ItemParam(items[|items| - 1])
  }

  /** The string parameters of one attribute: only list attributes have any. */
  function AttrParams(attr: Attribute): seq<Param>
  {
    match attr.value
    case List(_, items) => ItemParams(items)
    case _ => []
  }

  /** All string parameters of the attributes, in traversal order. */
  function StringParams(attrs: seq<Attribute>): seq<Param>
  {
    if attrs == [] then []
    else StringParams(attrs[..|attrs| - 1]) + AttrParams(attrs[|attrs| - 1])
  }

  /** The value of the last parameter called `key`, or "" when there is none. */
  function LastValue(ps: seq<Param>, key: string): string
  {
    if ps == [] then ""
    else if ps[|ps| - 1].name == key then ps[|ps| - 1].value
    else LastValue(ps[..|ps| - 1], key)
  }

  /** With no parameter called `key`, the value is the empty default. */
  lemma {:induction false} LastValueAbsent(ps: seq<Param>, key: string)
    requires forall i :: 0 <= i < |ps| ==> ps[i].name != key
    ensures LastValue(ps, key) == ""
  {
    if ps != [] {
      LastValueAbsent(ps[..|ps| - 1], key);
    }
  }

  /** A later parameter called `key` overrides every earlier one. */
  lemma {:induction false} LastValueIsLast(ps: seq<Param>, key: string, i: nat)
    requires i < |ps| && ps[i].name == key
    requires forall j :: i < j < |ps| ==> ps[j].name != key
    ensures LastValue(ps, key) == ps[i].value
  {
    if i < |ps| - 1 {
      LastValueIsLast(ps[..|ps| - 1], key, i);
    }
  }

  lemma {:induction false} ItemParamsAppend(a: seq<NestedMetaItem>, b: seq<NestedMetaItem>)
    ensures ItemParams(a + b) == ItemParams(a) + ItemParams(b)
  {
    if b != [] {
      assert (a + b)[..|a + b| - 1] == a + b[..|b| - 1];
      ItemParamsAppend(a, b[..|b| - 1]);
    } else {
      assert a + b == a;
    }
  }

  lemma {:induction false} StringParamsAppend(a: seq<Attribute>, b: seq<Attribute>)
    ensures StringParams(a + b) == StringParams(a) + StringParams(b)
  {
    if b != [] {
      assert (a + b)[..|a + b| - 1] == a + b[..|b| - 1];
      StringParamsAppend(a, b[..|b| - 1]);
    } else {
      assert a + b == a;
    }
  }

  /** A parameter is collected from a list of items exactly when one of the items is a
      name-value item with that name and that string literal. */
  lemma {:induction false} ItemParamsMembers(items: seq<NestedMetaItem>, p: Param)
    ensures p in ItemParams(items) <==>
      exists j :: 0 <= j < |items| && items[j] == MetaItem(NameValue(p.name, Str(p.value)))
  {
    if items != [] {
      var init := items[..|items| - 1];
      ItemParamsMembers(init, p);
      if p in ItemParams(init) {
        var j :| 0 <= j < |init| && init[j] == MetaItem(NameValue(p.name, Str(p.value)));
        assert items[j] == init[j];
      }
      if j :| 0 <= j < |items| && items[j] == MetaItem(NameValue(p.name, Str(p.value))) {
        if j < |init| {
          assert init[j] == items[j];
        }
      }
    }
  }

  /** A parameter is collected from the attributes exactly when some list attribute holds
      a name-value item with that name and that string literal; items of other kinds,
      literals other than strings and attributes other than lists contribute nothing. */
  lemma {:induction false} StringParamsMembers(attrs: seq<Attribute>, p: Param)
    ensures p in StringParams(attrs) <==>
      exists k, j :: 0 <= k < |attrs| && attrs[k].value.List? && 0 <= j < |attrs[k].value.items|
                     && attrs[k].value.items[j] == MetaItem(NameValue(p.name, Str(p.value)))
  {
    if attrs != [] {
      var init, last := attrs[..|attrs| - 1], attrs[|attrs| - 1];
      StringParamsMembers(init, p);
      if last.value.List? {
        ItemParamsMembers(last.value.items, p);
      }
      if p in StringParams(init) {
        var k, j :| 0 <= k < |init| && init[k].value.List? && 0 <= j < |init[k].value.items|
                    && init[k].value.items[j] == MetaItem(NameValue(p.name, Str(p.value)));
        assert attrs[k] == init[k];
      }
      if k, j :| 0 <= k < |attrs| && attrs[k].value.List? && 0 <= j < |attrs[k].value.items|
                 && attrs[k].value.items[j] == MetaItem(NameValue(p.name, Str(p.value))) {
        if k < |init| {
          assert init[k] == attrs[k];
        }
      }
    }
  }

  /** Adding one parameter at the end: it wins for its own name and changes nothing else. */
  lemma LastValueSnoc(ps: seq<Param>, p: Param, key: string)
    ensures LastValue(ps + [p], key) == if p.name == key then p.value else LastValue(ps, key)
  {
    assert (ps + [p])[..|ps|] == ps;
  }

  /** The parameters of the first `i` attributes followed by those of attribute `i`. */
  lemma StringParamsStep(attrs: seq<Attribute>, i: nat)
    requires i < |attrs|
    ensures StringParams(attrs[..i + 1]) == StringParams(attrs[..i]) + AttrParams(attrs[i])
  {
    assert attrs[..i + 1][..i] == attrs[..i];
  }

  /** The parameters of the first `j` items followed by those of item `j`. */
  lemma ItemParamsStep(items: seq<NestedMetaItem>, j: nat)
    requires j < |items|
    ensures ItemParams(items[..j + 1]) == ItemParams(items[..j]) + ItemParam(items[j])
  {
    assert items[..j + 1][..j] == items[..j];
  }

  /** The parameters of a sequence of attributes split around attribute `i`. */
  lemma StringParamsSplit(attrs: seq<Attribute>, i: nat)
    requires i < |attrs|
    ensures StringParams(attrs) == StringParams(attrs[..i]) + AttrParams(attrs[i]) + StringParams(attrs[i + 1..])
  {
    assert attrs == attrs[..i + 1] + attrs[i + 1..];
    StringParamsAppend(attrs[..i + 1], attrs[i + 1..]);
    StringParamsStep(attrs, i);
  }

  /** The parameters of a sequence of items split around item `j`. */
  lemma ItemParamsSplit(items: seq<NestedMetaItem>, j: nat)
    requires j < |items|
    ensures ItemParams(items) == ItemParams(items[..j]) + ItemParam(items[j]) + ItemParams(items[j + 1..])
  {
    assert items == items[..j + 1] + items[j + 1..];
    ItemParamsAppend(items[..j + 1], items[j + 1..]);
    ItemParamsStep(items, j);
  }

  /** Parameter `k` is the first whose name is neither `pre` nor `post`. */
  predicate FirstUnsupportedAt(ps: seq<Param>, k: int)
  {
    && 0 <= k < |ps|
    && !IsConditionKey(ps[k].name)
    && forall l :: 0 <= l < k ==> IsConditionKey(ps[l].name)
  }

  /** What comes after the first unsupported parameter does not move it. */
  lemma FirstUnsupportedExtends(ps: seq<Param>, k: int, tail: seq<Param>)
    requires FirstUnsupportedAt(ps, k)
    ensures FirstUnsupportedAt(ps + tail, k)
  {
    forall l | 0 <= l <= k ensures (ps + tail)[l] == ps[l] { }
  }

  lemma Regroup<T>(s: seq<T>, a: seq<T>, m: seq<T>, b: seq<T>)
    ensures s + (a + m + b) == ((s + a) + m) + b
  {
  }

  /** An item `j` with an unsupported name, after items that only set `pre` and `post`,
      is the first unsupported parameter of the scan. */
  lemma UnsupportedItem(items: seq<NestedMetaItem>, seen: seq<Param>, j: nat, name: string, value: string)
    requires j < |items| && items[j] == MetaItem(NameValue(name, Str(value))) && !IsConditionKey(name)
    requires forall p :: p in seen + ItemParams(items[..j]) ==> IsConditionKey(p.name)
    ensures var k := |seen + ItemParams(items[..j])|;
      FirstUnsupportedAt(seen + ItemParams(items), k) && (seen + ItemParams(items))[k].name == name
  {
    var cur := seen + ItemParams(items[..j]);
    var ps := seen + ItemParams(items);
    var tail := ItemParams(items[j + 1..]);
    assert ps == (cur + [Param(name, value)]) + tail by {
      ItemParamsSplit(items, j);
      Regroup(seen, ItemParams(items[..j]), [Param(name, value)], tail);
    }
    assert FirstUnsupportedAt(ps, |cur|) by {
      assert FirstUnsupportedAt(cur + [Param(name, value)], |cur|) by {
        forall l | 0 <= l < |cur| ensures (cur + [Param(name, value)])[l] in cur { }
      }
      FirstUnsupportedExtends(cur + [Param(name, value)], |cur|, tail);
    }
    assert ps[|cur|].name == name;
  }

  /** The inner scan over the items of one list attribute, continuing a scan that has
      already seen the parameters `seen` and holds their `pre` and `post` values. */
  method ParseItems(items: seq<NestedMetaItem>, ghost seen: seq<Param>, pre: string, post: string)
    returns (r: Result<(string, string)>)
    requires forall p :: p in seen ==> IsConditionKey(p.name)
    requires pre == LastValue(seen, "pre") && post == LastValue(seen, "post")
    ensures var ps := seen + ItemParams(items);
      && (r.Ok? <==> forall p :: p in ps ==> IsConditionKey(p.name))
      && (r.Ok? ==> r.value == (LastValue(ps, "pre"), LastValue(ps, "post")))
      && (r.Err? ==> exists k :: FirstUnsupportedAt(ps, k) && r.error == UnsupportedParameter(ps[k].name))
  {
    var preString, postString := pre, post;
    ghost var cur := seen;
    assert items[..0] == [] && seen + [] == seen;
    for j := 0 to |items|
      invariant cur == seen + ItemParams(items[..j])
      invariant forall p :: p in cur ==> IsConditionKey(p.name)
      invariant preString == LastValue(cur, "pre") && postString == LastValue(cur, "post")
    {
      ItemParamsStep(items, j);
      assert seen + ItemParams(items[..j + 1]) == cur + ItemParam(items[j]);
      match items[j]
      case MetaItem(NameValue(name, Str(value))) =>
        if name == "pre" {
          preString := value;
        } else if name == "post" {
          postString := value;
        } else {
          UnsupportedItem(items, seen, j, name, value);
          return Err(UnsupportedParameter(name));
        }
        LastValueSnoc(cur, Param(name, value), "pre");
        LastValueSnoc(cur, Param(name, value), "post");
        cur := cur + [Param(name, value)];
      case _ =>
    }
    assert items[..|items|] == items;
    return Ok((preString, postString));
  }

  /** Collects the `pre` and `post` strings of a function's annotations. Both default to "";
      a later parameter overwrites an earlier one; the first string parameter with another
      name makes it panic. */
  method ParseAttributes(attrs: seq<Attribute>) returns (r: Result<(string, string)>)
    ensures r.Ok? <==> forall p :: p in StringParams(attrs) ==> IsConditionKey(p.name)
    ensures r.Ok? ==> r.value == (LastValue(StringParams(attrs), "pre"), LastValue(StringParams(attrs), "post"))
    ensures r.Err? ==> exists k :: FirstUnsupportedAt(StringParams(attrs), k)
                                   && r.error == UnsupportedParameter(StringParams(attrs)[k].name)
  {
    var preString, postString := "", "";
    ghost var seen: seq<Param> := [];
    for i := 0 to |attrs|
      invariant seen == StringParams(attrs[..i])
      invariant forall p :: p in seen ==> IsConditionKey(p.name)
      invariant preString == LastValue(seen, "pre") && postString == LastValue(seen, "post")
    {
      StringParamsStep(attrs, i);
      match attrs[i].value
      case List(_, items) =>
        var res := ParseItems(items, seen, preString, postString);
        if res.Err? {
          ghost var k :| FirstUnsupportedAt(seen + ItemParams(items), k)
                         && res.error == UnsupportedParameter((seen + ItemParams(items))[k].name);
          StringParamsSplit(attrs, i);
          FirstUnsupportedExtends(seen + ItemParams(items), k, StringParams(attrs[i + 1..]));
          return Err(res.error);
        }
        preString, postString := res.value.0, res.value.1;
        seen := seen + ItemParams(items);
      case _ =>
    }
    assert attrs[..|attrs|] == attrs;
    return Ok((preString, postString));
  }
}
