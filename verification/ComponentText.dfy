/** The canonical text of a component (`canonicalComponent` in `scripts/release-licenses.ts`) and the proof that
    comparing texts compares components. */
module ComponentText {
  import opened Wrappers
  import opened Sorting
  import opened Json
  import opened JsonCanonical
  import opened Components

  function KindText(k: Kind): string {
    if k.Application? then "application" else "library"
  }

  function Optional(v: Option<string>): Value {
    if v.Some? then VString(v.value) else VUndefined
  }

  function HashValue(sha512: Option<string>): Value {
    if sha512.Some? then VArray([VObject([VMember("alg", VString("SHA-512")), VMember("content", VString(sha512.value))])])
    else VUndefined
  }

  function LicenseValue(expression: string): Value {
    VObject([VMember("expression", VString(expression))])
  }

  function LicenseValues(expressions: seq<string>): (r: seq<Value>)
    ensures |r| == |expressions| && forall i :: 0 <= i < |r| ==> r[i] == LicenseValue(expressions[i])
  {
    if expressions == [] then [] else [LicenseValue(expressions[0])] + LicenseValues(expressions[1..])
  }

  function PropertyValue(p: Property): Value {
    VObject([VMember("name", VString(p.name)), VMember("value", VString(p.value))])
  }

  function PropertyValues(ps: seq<Property>): (r: seq<Value>)
    ensures |r| == |ps| && forall i :: 0 <= i < |r| ==> r[i] == PropertyValue(ps[i])
  {
    if ps == [] then [] else [PropertyValue(ps[0])] + PropertyValues(ps[1..])
  }

  function PropertiesValue(ps: Option<seq<Property>>): Value {
    if ps.Some? then VArray(PropertyValues(ps.value)) else VUndefined
  }

  /** The members of a component, in the order they are written; an absent one is undefined. */
  function ComponentMembers(c: Component): (r: seq<VMember>)
    ensures |r| == 8
  {
    [VMember("type", VString(KindText(c.kind))),
     VMember("bom-ref", VString(c.bomRef)),
     VMember("name", VString(c.name)),
     VMember("version", VString(c.version)),
     VMember("purl", Optional(c.purl)),
     VMember("hashes", HashValue(c.sha512)),
     VMember("licenses", VArray(LicenseValues(c.licenses))),
     VMember("properties", PropertiesValue(c.properties))]
  }

  function ComponentValue(c: Component): Value {
    VObject(ComponentMembers(c))
  }

  // ---------------------------------------------------------------- equivalent values, equal components

  lemma StringsAgree(a: string, b: string)
    requires Equivalent(VString(a), VString(b))
    ensures a == b
  {
  }

  /** Objects with the same keys in the same places agree place by place. */
  lemma PlacesAgree(ms: seq<VMember>, ns: seq<VMember>, i: nat)
    requires Equivalent(VObject(ms), VObject(ns)) && i < |ms| == |ns| && ms[i].key == ns[i].key
    requires DistinctKeys(VKey, ms) && DistinctKeys(VKey, ns)
    ensures ms[i].value.VUndefined? <==> ns[i].value.VUndefined?
    ensures !ms[i].value.VUndefined? ==> Equivalent(ms[i].value, ns[i].value)
  {
    if !ms[i].value.VUndefined? {
      assert IsDefined(ms, i);
      assert HasKey(ms, ms[i].key);
      var j :| IsDefined(ns, j) && ns[j].key == ms[i].key;
      SameKeySameIndex(ns, i, j);
    }
    if !ns[i].value.VUndefined? {
      assert IsDefined(ns, i);
      assert HasKey(ns, ns[i].key);
      var j :| IsDefined(ms, j) && ms[j].key == ns[i].key;
      SameKeySameIndex(ms, i, j);
    }
  }

  // ---------------------------------------------------------------- components have a canonical text

  ghost predicate Serialises(v: Value) {
    WellFormed(v) && CanonicalJson(v).Some?
  }

  lemma {:induction false} ItemsSerialise(items: seq<Value>)
    requires forall i :: 0 <= i < |items| ==> Serialises(items[i])
    ensures Serialises(VArray(items))
    ensures AllWellFormed(items) && CanonicalItems(items).Some?
  {
    if items != [] {
      assert Serialises(items[0]);
      assert forall i :: 0 <= i < |items[1..]| ==> items[1..][i] == items[i + 1];
      ItemsSerialise(items[1..]);
    }
  }

  lemma {:induction false} MembersSerialise(members: seq<VMember>)
    requires forall i :: 0 <= i < |members| ==> members[i].value.VUndefined? || Serialises(members[i].value)
    ensures MembersWellFormed(members) && CanonicalMembers(members).Some?
  {
    if members != [] {
      assert members[0].value.VUndefined? || Serialises(members[0].value);
      assert forall i :: 0 <= i < |members[1..]| ==> members[1..][i] == members[i + 1];
      MembersSerialise(members[1..]);
    }
  }

  lemma ObjectSerialises(members: seq<VMember>)
    requires DistinctKeys(VKey, members)
    requires forall i :: 0 <= i < |members| ==> members[i].value.VUndefined? || Serialises(members[i].value)
    ensures Serialises(VObject(members))
  {
    MembersSerialise(members);
  }

  lemma StringSerialises(s: string)
    ensures Serialises(VString(s))
  {
  }

  lemma LicensesSerialise(expressions: seq<string>)
    ensures Serialises(VArray(LicenseValues(expressions)))
  {
    forall i | 0 <= i < |expressions|
      ensures Serialises(LicenseValues(expressions)[i])
    {
      StringSerialises(expressions[i]);
      ObjectSerialises([VMember("expression", VString(expressions[i]))]);
    }
    ItemsSerialise(LicenseValues(expressions));
  }

  lemma TwoMembersSerialise(first: string, a: string, second: string, b: string)
    requires |first| != |second|
    ensures Serialises(VObject([VMember(first, VString(a)), VMember(second, VString(b))]))
  {
    StringSerialises(a);
    StringSerialises(b);
    ObjectSerialises([VMember(first, VString(a)), VMember(second, VString(b))]);
  }

  lemma PropertiesSerialise(ps: seq<Property>)
    ensures Serialises(VArray(PropertyValues(ps)))
  {
    forall i | 0 <= i < |ps|
      ensures Serialises(PropertyValues(ps)[i])
    {
      TwoMembersSerialise("name", ps[i].name, "value", ps[i].value);
    }
    ItemsSerialise(PropertyValues(ps));
  }

  lemma HashSerialises(content: string)
    ensures Serialises(HashValue(Some(content)))
  {
    TwoMembersSerialise("alg", "SHA-512", "content", content);
    ItemsSerialise([VObject([VMember("alg", VString("SHA-512")), VMember("content", VString(content))])]);
  }

  lemma KeysDistinct(c: Component)
    ensures DistinctKeys(VKey, ComponentMembers(c))
  {
    var ms := ComponentMembers(c);
    assert ms[0].key[0] == 't' && ms[2].key[0] == 'n' && ms[4].key[0] == 'p';
    assert ms[1].key[0] == 'b' && ms[3].key[0] == 'v';
  }

  lemma ComponentSerialises(c: Component)
    ensures Serialises(ComponentValue(c))
  {
    KeysDistinct(c);
    StringSerialises(KindText(c.kind));
    StringSerialises(c.bomRef);
    StringSerialises(c.name);
    StringSerialises(c.version);
    if c.purl.Some? {
      StringSerialises(c.purl.value);
    }
    if c.sha512.Some? {
      HashSerialises(c.sha512.value);
    }
    LicensesSerialise(c.licenses);
    if c.properties.Some? {
      PropertiesSerialise(c.properties.value);
    }
    ObjectSerialises(ComponentMembers(c));
  }

  /** `canonicalComponent`. */
  function Text(c: Component): string {
    var text := CanonicalJson(ComponentValue(c));
    if text.Some? then text.value else ""
  }

  // ---------------------------------------------------------------- equal texts, equal components

  lemma LicensesAgree(xs: seq<string>, ys: seq<string>)
    requires Equivalent(VArray(LicenseValues(xs)), VArray(LicenseValues(ys)))
    ensures xs == ys
  {
    forall i | 0 <= i < |xs|
      ensures xs[i] == ys[i]
    {
      assert Equivalent(LicenseValues(xs)[i], LicenseValues(ys)[i]);
      PlacesAgree([VMember("expression", VString(xs[i]))], [VMember("expression", VString(ys[i]))], 0);
      StringsAgree(xs[i], ys[i]);
    }
  }

  lemma TwoMembersAgree(first: string, a: string, second: string, b: string, c: string, d: string)
    requires |first| != |second|
    requires Equivalent(VObject([VMember(first, VString(a)), VMember(second, VString(b))]),
                        VObject([VMember(first, VString(c)), VMember(second, VString(d))]))
    ensures a == c && b == d
  {
    var ms := [VMember(first, VString(a)), VMember(second, VString(b))];
    var ns := [VMember(first, VString(c)), VMember(second, VString(d))];
    PlacesAgree(ms, ns, 0);
    PlacesAgree(ms, ns, 1);
    StringsAgree(a, c);
    StringsAgree(b, d);
  }

  lemma PropertiesAgree(xs: seq<Property>, ys: seq<Property>)
    requires Equivalent(VArray(PropertyValues(xs)), VArray(PropertyValues(ys)))
    ensures xs == ys
  {
    forall i | 0 <= i < |xs|
      ensures xs[i] == ys[i]
    {
      assert Equivalent(PropertyValues(xs)[i], PropertyValues(ys)[i]);
      TwoMembersAgree("name", xs[i].name, "value", xs[i].value, ys[i].name, ys[i].value);
    }
  }

  lemma HashesAgree(a: string, b: string)
    requires Equivalent(HashValue(Some(a)), HashValue(Some(b)))
    ensures a == b
  {
    var xs := [VObject([VMember("alg", VString("SHA-512")), VMember("content", VString(a))])];
    var ys := [VObject([VMember("alg", VString("SHA-512")), VMember("content", VString(b))])];
    assert Equivalent(xs[0], ys[0]);
    TwoMembersAgree("alg", "SHA-512", "content", a, "SHA-512", b);
  }

  lemma FieldsAgree(a: Component, b: Component, i: nat)
    requires Equivalent(ComponentValue(a), ComponentValue(b)) && i < 8
    ensures ComponentMembers(a)[i].value.VUndefined? <==> ComponentMembers(b)[i].value.VUndefined?
    ensures !ComponentMembers(a)[i].value.VUndefined? ==>
              Equivalent(ComponentMembers(a)[i].value, ComponentMembers(b)[i].value)
  {
    KeysDistinct(a);
    KeysDistinct(b);
    PlacesAgree(ComponentMembers(a), ComponentMembers(b), i);
  }

  lemma TextFieldsAgree(a: Component, b: Component)
    requires Equivalent(ComponentValue(a), ComponentValue(b))
    ensures a.kind == b.kind && a.bomRef == b.bomRef && a.name == b.name && a.version == b.version
  {
    FieldsAgree(a, b, 0);
    StringsAgree(KindText(a.kind), KindText(b.kind));
    assert |KindText(a.kind)| == |KindText(b.kind)|;
    FieldsAgree(a, b, 1);
    StringsAgree(a.bomRef, b.bomRef);
    FieldsAgree(a, b, 2);
    StringsAgree(a.name, b.name);
    FieldsAgree(a, b, 3);
    StringsAgree(a.version, b.version);
  }

  lemma OptionalFieldsAgree(a: Component, b: Component)
    requires Equivalent(ComponentValue(a), ComponentValue(b))
    ensures a.purl == b.purl && a.sha512 == b.sha512
  {
    FieldsAgree(a, b, 4);
    if a.purl.Some? {
      StringsAgree(a.purl.value, b.purl.value);
    }
    FieldsAgree(a, b, 5);
    if a.sha512.Some? {
      HashesAgree(a.sha512.value, b.sha512.value);
    }
  }

  lemma ListFieldsAgree(a: Component, b: Component)
    requires Equivalent(ComponentValue(a), ComponentValue(b))
    ensures a.licenses == b.licenses && a.properties == b.properties
  {
    FieldsAgree(a, b, 6);
    LicensesAgree(a.licenses, b.licenses);
    FieldsAgree(a, b, 7);
    if a.properties.Some? {
      PropertiesAgree(a.properties.value, b.properties.value);
    }
  }

  /** Two components have the same canonical text exactly when they are the same. */
  lemma TextDecidesComponent(a: Component, b: Component)
    ensures Text(a) == Text(b) <==> a == b
  {
    ComponentSerialises(a);
    ComponentSerialises(b);
    CanonicalIsCanonical(ComponentValue(a), ComponentValue(b));
    if Text(a) == Text(b) {
      TextFieldsAgree(a, b);
      OptionalFieldsAgree(a, b);
      ListFieldsAgree(a, b);
    }
  }
}
