/** Properties of a parsed VEVENT and the recurrence lines handed to Google
    Calendar (`getRecurrenceRules`, app.js:145-161). A property is its
    lower-case name, as the parser stores it, and its value text. */
module Recurrence {
  import opened Wrappers

  datatype Property = Property(name: string, value: string)

  /** The property kinds copied into the Google event, in this order. */
  const RecurrenceKinds: seq<string> := ["rrule", "rdate"]

  /** `component.getAllProperties(name)`: the properties of that name, in
      source order. */
  function AllProperties(props: seq<Property>, name: string): (r: seq<Property>)
    ensures |r| <= |props|
  {
    if props == [] then []
    else if props[0].name == name then [props[0]] + AllProperties(props[1..], name)
    else AllProperties(props[1..], name)
  }

  /** Exactly the properties of that name are selected. */
  lemma {:induction false} AllPropertiesMembers(props: seq<Property>, name: string, p: Property)
    ensures p in AllProperties(props, name) <==> p in props && p.name == name
  {
    if props != [] {
      AllPropertiesMembers(props[1..], name, p);
      assert p in props <==> p == props[0] || p in props[1..];
    }
  }

  /** `component.getFirstPropertyValue(name)`. */
  function FirstPropertyValue(props: seq<Property>, name: string): (r: Option<string>)
    ensures r.Some? <==> exists p :: p in props && p.name == name
  {
    if props == [] then None
    else if props[0].name == name then Some(props[0].value)
    else FirstPropertyValue(props[1..], name)
  }

  /** The first value is the value of the first property of that name. */
  lemma {:induction false} FirstIsHeadOfAll(props: seq<Property>, name: string)
    ensures FirstPropertyValue(props, name) ==
      if AllProperties(props, name) == [] then None else Some(AllProperties(props, name)[0].value)
  {
    if props != [] && props[0].name != name {
      FirstIsHeadOfAll(props[1..], name);
    }
  }

  function UpperAscii(c: char): char {
    if 'a' <= c <= 'z' then (c as int - 32) as char else c
  }

  function UpperName(name: string): (r: string)
    ensures |r| == |name|
  {
    if name == [] then [] else [UpperAscii(name[0])] + UpperName(name[1..])
  }

  /** `property.toICALString()` for an unparameterised, unfolded property:
      `NAME:value`. */
  function IcalString(p: Property): (r: string)
    ensures |r| > |p.name|
  {
    UpperName(p.name) + ":" + p.value
  }

  lemma IcalStringPrefix(p: Property)
    ensures IcalString(p)[..|p.name| + 1] == UpperName(p.name) + ":"
  {
    assert IcalString(p) == (UpperName(p.name) + ":") + p.value;
  }

  function IcalStrings(ps: seq<Property>): (r: seq<string>)
    ensures |r| == |ps|
    ensures forall i :: 0 <= i < |ps| ==> r[i] == IcalString(ps[i])
  {
    if ps == [] then [] else [IcalString(ps[0])] + IcalStrings(ps[1..])
  }

  /** The renderings of every property of each of `kinds`, kind by kind. */
  function Collected(props: seq<Property>, kinds: seq<string>): seq<string> {
    if kinds == [] then []
    else Collected(props, kinds[..|kinds| - 1]) + IcalStrings(AllProperties(props, kinds[|kinds| - 1]))
  }

  /** Reference definition: all RRULE lines, then all RDATE lines. */
  function RecurrenceRules(props: seq<Property>): seq<string> {
    Collected(props, RecurrenceKinds)
  }

  /** The loop of `getRecurrenceRules`: for each kind in turn, push the
      rendering of every property of that kind. */
  method GetRecurrenceRules(props: seq<Property>) returns (rules: seq<string>)
    ensures rules == RecurrenceRules(props)
  {
    rules := [];
    var k := 0;
    while k < |RecurrenceKinds|
      invariant 0 <= k <= |RecurrenceKinds|
      invariant rules == Collected(props, RecurrenceKinds[..k])
    {
      var kind := RecurrenceKinds[k];
      var matching := AllProperties(props, kind);
      ghost var before := rules;
      var i := 0;
      while i < |matching|
        invariant 0 <= i <= |matching|
        invariant rules == before + IcalStrings(matching[..i])
      {
        rules := rules + [IcalString(matching[i])];
        i := i + 1;
        assert matching[..i] == matching[..i - 1] + [matching[i - 1]];
        IcalStringsAppend(matching[..i - 1], matching[i - 1]);
      }
      assert matching[..i] == matching;
      assert RecurrenceKinds[..k + 1][..k] == RecurrenceKinds[..k];
      k := k + 1;
    }
    assert RecurrenceKinds[..k] == RecurrenceKinds;
  }

  /** All RRULE lines, then all RDATE lines, each group in source order. */
  lemma RecurrenceRulesOrder(props: seq<Property>)
    ensures RecurrenceRules(props) ==
      IcalStrings(AllProperties(props, "rrule")) + IcalStrings(AllProperties(props, "rdate"))
  {
    assert RecurrenceKinds[..1] == ["rrule"];
    assert Collected(props, ["rrule"]) == IcalStrings(AllProperties(props, "rrule")) by {
      assert ["rrule"][..0] == [];
    }
  }

  lemma {:induction false} IcalStringsAppend(ps: seq<Property>, p: Property)
    ensures IcalStrings(ps + [p]) == IcalStrings(ps) + [IcalString(p)]
  {
    var l, r := IcalStrings(ps + [p]), IcalStrings(ps) + [IcalString(p)];
    assert |l| == |r|;
    forall i | 0 <= i < |l| ensures l[i] == r[i] {
      assert (ps + [p])[i] == if i < |ps| then ps[i] else p;
    }
  }

  /** As many lines as RRULE and RDATE properties together. */
  lemma RecurrenceRulesCount(props: seq<Property>)
    ensures |RecurrenceRules(props)| == |AllProperties(props, "rrule")| + |AllProperties(props, "rdate")|
  {
    RecurrenceRulesOrder(props);
  }

  /** Every line is an RRULE or RDATE property rendered, so none comes from
      EXRULE or EXDATE. */
  lemma RecurrenceRulesSources(props: seq<Property>, i: int)
    requires 0 <= i < |RecurrenceRules(props)|
    ensures exists p :: p in props && (p.name == "rrule" || p.name == "rdate") && RecurrenceRules(props)[i] == IcalString(p)
  {
    var rr, rd := AllProperties(props, "rrule"), AllProperties(props, "rdate");
    RecurrenceRulesOrder(props);
    if i < |rr| {
      AllPropertiesMembers(props, "rrule", rr[i]);
    } else {
      AllPropertiesMembers(props, "rdate", rd[i - |rr|]);
    }
  }

  lemma UpperStep(name: string)
    requires name != []
    ensures UpperName(name) == [UpperAscii(name[0])] + UpperName(name[1..])
  {
  }

  /** The two kinds are written upper-case, one character at a time. */
  lemma UpperKinds()
    ensures UpperName("rrule") == "RRULE" && UpperName("rdate") == "RDATE"
  {
    assert UpperName("") == "";
    UpperStep("e");
    assert "e"[1..] == "";
    UpperStep("le");
    assert "le"[1..] == "e";
    UpperStep("ule");
    assert "ule"[1..] == "le";
    UpperStep("rule");
    assert "rule"[1..] == "ule";
    UpperStep("rrule");
    assert "rrule"[1..] == "rule";
    UpperStep("te");
    assert "te"[1..] == "e";
    UpperStep("ate");
    assert "ate"[1..] == "te";
    UpperStep("date");
    assert "date"[1..] == "ate";
    UpperStep("rdate");
    assert "rdate"[1..] == "date";
  }

  /** The RRULE lines come first, each starting `RRULE:`; every later line
      starts `RDATE:`. */
  lemma RecurrenceRulesPrefixes(props: seq<Property>, i: int)
    requires 0 <= i < |RecurrenceRules(props)|
    ensures |RecurrenceRules(props)[i]| >= 6
    ensures RecurrenceRules(props)[i][..6] == (if i < |AllProperties(props, "rrule")| then "RRULE:" else "RDATE:")
  {
    var rr, rd := AllProperties(props, "rrule"), AllProperties(props, "rdate");
    RecurrenceRulesOrder(props);
    UpperKinds();
    var p := if i < |rr| then rr[i] else rd[i - |rr|];
    AllPropertiesMembers(props, if i < |rr| then "rrule" else "rdate", p);
    IcalStringPrefix(p);
  }

  /** Every RRULE and every RDATE property is rendered into the output. */
  lemma RecurrenceRulesComplete(props: seq<Property>, p: Property)
    requires p in props && (p.name == "rrule" || p.name == "rdate")
    ensures IcalString(p) in RecurrenceRules(props)
  {
    var rr, rd := AllProperties(props, "rrule"), AllProperties(props, "rdate");
    RecurrenceRulesOrder(props);
    AllPropertiesMembers(props, p.name, p);
    if p.name == "rrule" {
      var i :| 0 <= i < |rr| && rr[i] == p;
      assert RecurrenceRules(props)[i] == IcalString(p);
    } else {
      var i :| 0 <= i < |rd| && rd[i] == p;
      assert RecurrenceRules(props)[|rr| + i] == IcalString(p);
    }
  }

  /** Properties other than RRULE and RDATE do not affect the result. */
  lemma {:induction false} OtherPropertiesIgnored(props: seq<Property>, q: Property)
    requires q.name != "rrule" && q.name != "rdate"
    ensures RecurrenceRules(props + [q]) == RecurrenceRules(props)
  {
    AllPropertiesAppendOther(props, q, "rrule");
    AllPropertiesAppendOther(props, q, "rdate");
    RecurrenceRulesOrder(props);
    RecurrenceRulesOrder(props + [q]);
  }

  lemma {:induction false} AllPropertiesAppendOther(props: seq<Property>, q: Property, name: string)
    requires q.name != name
    ensures AllProperties(props + [q], name) == AllProperties(props, name)
  {
    if props == [] {
      assert AllProperties([q], name) == AllProperties([], name);
    } else {
      assert (props + [q])[1..] == props[1..] + [q];
      AllPropertiesAppendOther(props[1..], q, name);
    }
  }
}
