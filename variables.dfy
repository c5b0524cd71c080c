/** `parse_variables` of energym/utils/common.py over an already parsed XML
    document: the root's child elements, each with its tag, its attributes
    and the attribute maps of its own children. The loop keeps the
    `variable` elements whose `source` is "EnergyPlus" and collects the `type`
    attribute of their first child, in document order. A missing attribute
    (Python's KeyError) or a missing child (IndexError) aborts the whole call. */
module Variables {
  import opened Results

  datatype Element = Element(tag: string, attrib: map<string, string>, children: seq<map<string, string>>)

  datatype ParseError =
    | MissingAttribute(name: string)  // KeyError on `attrib[name]`
    | MissingChild                    // IndexError on `var[0]`

  const EnergyPlus := "EnergyPlus"

  /** What one child of the root contributes: nothing (skipped), one type
      name, or the error raised while reading it. Only a `variable` element
      is read; its `source` is read first, and only an EnergyPlus one has its
      first child's `type` read. */
  function EntryType(e: Element): (r: Result<Option<string>, ParseError>)
    ensures r == Ok(None) <==> e.tag != "variable" || ("source" in e.attrib && e.attrib["source"] != EnergyPlus)
    ensures r == Err(MissingAttribute("source")) <==> e.tag == "variable" && "source" !in e.attrib
    ensures r == Err(MissingChild) <==>
              e.tag == "variable" && "source" in e.attrib && e.attrib["source"] == EnergyPlus && |e.children| == 0
    ensures r == Err(MissingAttribute("type")) <==>
              (e.tag == "variable" && "source" in e.attrib && e.attrib["source"] == EnergyPlus
               && |e.children| > 0 && "type" !in e.children[0])
    ensures r.Ok? && r.value.Some? <==>
              (e.tag == "variable" && "source" in e.attrib && e.attrib["source"] == EnergyPlus
               && |e.children| > 0 && "type" in e.children[0])
    ensures r.Ok? && r.value.Some? ==> |e.children| > 0 && "type" in e.children[0] && r.value.value == e.children[0]["type"]
  {
    if e.tag != "variable" then Ok(None)
    else if "source" !in e.attrib then Err(MissingAttribute("source"))
    else if e.attrib["source"] != EnergyPlus then Ok(None)
    else if |e.children| == 0 then Err(MissingChild)
    else if "type" !in e.children[0] then Err(MissingAttribute("type"))
    else Ok(Some(e.children[0]["type"]))
  }

  /** An element the loop reads without raising. */
  predicate WellFormed(e: Element) {
    EntryType(e).Ok?
  }

  /** A `variable` element from EnergyPlus with a readable `type`. */
  predicate Selected(e: Element) {
    EntryType(e).Ok? && EntryType(e).value.Some?
  }

  function TypeOf(e: Element): string
    requires Selected(e)
  {
    EntryType(e).value.value
  }

  /** Prefixes the names already collected to the outcome of the rest of the document. */
  function Prepend(done: seq<string>, rest: Result<seq<string>, ParseError>): Result<seq<string>, ParseError> {
    if rest.Ok? then Ok(done + rest.value) else rest
  }

  lemma PrependTwice(x: seq<string>, y: seq<string>, rest: Result<seq<string>, ParseError>)
    ensures Prepend(x, Prepend(y, rest)) == Prepend(x + y, rest)
  {
    if rest.Ok? {
      assert x + (y + rest.value) == x + y + rest.value;
    }
  }

  /** Specification of the loop: the first error met, or every selected type in order. */
  function EnergyPlusTypes(root: seq<Element>): Result<seq<string>, ParseError>
  {
    if |root| == 0 then Ok([])
    else match EntryType(root[0])
      case Err(err) => Err(err)
      case Ok(None) => EnergyPlusTypes(root[1..])
      case Ok(Some(t)) => Prepend([t], EnergyPlusTypes(root[1..]))
  }

  /** The source's loop: append each selected type to `variables`, stopping
      at the first element whose attributes or child cannot be read. */
  method ParseVariables(root: seq<Element>) returns (r: Result<seq<string>, ParseError>)
    ensures r == EnergyPlusTypes(root)
  {
    var variables: seq<string> := [];
    var i := 0;
    assert root[i..] == root;
    if EnergyPlusTypes(root).Ok? {
      assert [] + EnergyPlusTypes(root).value == EnergyPlusTypes(root).value;
    }
    while i < |root|
      invariant 0 <= i <= |root|
      invariant EnergyPlusTypes(root) == Prepend(variables, EnergyPlusTypes(root[i..]))
    {
      var v := root[i];
      assert root[i..][1..] == root[i + 1..];
      if v.tag == "variable" {
        if "source" !in v.attrib {
          return Err(MissingAttribute("source"));
        }
        if v.attrib["source"] == EnergyPlus {
          if |v.children| == 0 {
            return Err(MissingChild);
          }
          if "type" !in v.children[0] {
            return Err(MissingAttribute("type"));
          }
          var t := v.children[0]["type"];
          PrependTwice(variables, [t], EnergyPlusTypes(root[i + 1..]));
          variables := variables + [t];
        }
      }
      i := i + 1;
    }
    assert root[i..] == [];
    assert variables + [] == variables;
    return Ok(variables);
  }

  // ---------------------------------------------------------------------
  // Properties of the filter

  /** The call succeeds exactly when every element can be read; otherwise it
      reports the error of the first element that cannot. */
  lemma {:induction false} ParseOkIffWellFormed(root: seq<Element>)
    ensures EnergyPlusTypes(root).Ok? <==> forall i :: 0 <= i < |root| ==> WellFormed(root[i])
    ensures EnergyPlusTypes(root).Err? ==>
      exists i :: 0 <= i < |root| && !WellFormed(root[i])
                  && (forall j :: 0 <= j < i ==> WellFormed(root[j]))
                  && EnergyPlusTypes(root).error == EntryType(root[i]).error
  {
    if |root| > 0 {
      ParseOkIffWellFormed(root[1..]);
      assert forall i :: 1 <= i < |root| ==> root[1..][i - 1] == root[i];
      if EnergyPlusTypes(root).Err? && WellFormed(root[0]) {
        var k :| 0 <= k < |root[1..]| && !WellFormed(root[1..][k])
                 && (forall j :: 0 <= j < k ==> WellFormed(root[1..][j]))
                 && EnergyPlusTypes(root[1..]).error == EntryType(root[1..][k]).error;
        assert forall j :: 0 <= j < k + 1 ==> WellFormed(root[j]) by {
          forall j | 0 <= j < k + 1 ensures WellFormed(root[j]) {
            if j > 0 { assert root[j] == root[1..][j - 1]; }
          }
        }
      }
    }
  }

  /** Parsing a concatenation parses each part in turn: the filter keeps
      document order, and elements after an error are never looked at. */
  lemma {:induction false} ParseAppend(a: seq<Element>, b: seq<Element>)
    ensures EnergyPlusTypes(a + b) ==
      if EnergyPlusTypes(a).Ok? then Prepend(EnergyPlusTypes(a).value, EnergyPlusTypes(b)) else EnergyPlusTypes(a)
  {
    if |a| == 0 {
      assert a + b == b;
      if EnergyPlusTypes(b).Ok? {
        assert [] + EnergyPlusTypes(b).value == EnergyPlusTypes(b).value;
      }
    } else {
      assert (a + b)[1..] == a[1..] + b;
      ParseAppend(a[1..], b);
      if EntryType(a[0]).Ok? && EntryType(a[0]).value.Some? && EnergyPlusTypes(a[1..]).Ok? {
        PrependTwice([EntryType(a[0]).value.value], EnergyPlusTypes(a[1..]).value, EnergyPlusTypes(b));
      }
    }
  }

  /** `idx` lists, strictly increasing, the positions of exactly the present
      entries of `found`, and `names` holds those entries in the same order. */
  ghost predicate IsSelection(found: seq<Option<string>>, names: seq<string>, idx: seq<nat>) {
    && |idx| == |names|
    && (forall k :: 0 <= k < |idx| ==> idx[k] < |found| && found[idx[k]] == Some(names[k]))
    && (forall k, l :: 0 <= k < l < |idx| ==> idx[k] < idx[l])
    && (forall i :: 0 <= i < |found| && found[i].Some? ==> i in idx)
  }

  /** A selection of `found` is one of `[None] + found` once every position moves up by one. */
  lemma SelectionShift(found: seq<Option<string>>, names: seq<string>, rest: seq<nat>) returns (idx: seq<nat>)
    requires IsSelection(found, names, rest)
    ensures IsSelection([None] + found, names, idx)
    ensures |idx| > 0 ==> idx[0] > 0
  {
    idx := seq(|rest|, k requires 0 <= k < |rest| => rest[k] + 1);
    var all := [None] + found;
    forall i | 0 <= i < |all| && all[i].Some? ensures i in idx {
      assert all[i] == found[i - 1];
      var j :| 0 <= j < |rest| && rest[j] == i - 1;
      assert idx[j] == i;
    }
  }

  /** Putting a present entry in front puts its position 0 in front of the selection. */
  lemma SelectionCons(t: string, found: seq<Option<string>>, names: seq<string>, rest: seq<nat>) returns (idx: seq<nat>)
    requires IsSelection(found, names, rest)
    ensures IsSelection([Some(t)] + found, [t] + names, idx)
  {
    idx := seq(|rest| + 1, k requires 0 <= k <= |rest| => if k == 0 then 0 else rest[k - 1] + 1);
    var all := [Some(t)] + found;
    forall i | 0 <= i < |all| && all[i].Some? ensures i in idx {
      if i > 0 {
        assert all[i] == found[i - 1];
        var j :| 0 <= j < |rest| && rest[j] == i - 1;
        assert idx[j + 1] == i;
      } else {
        assert idx[0] == 0;
      }
    }
  }

  /** What each element contributes: the first child's `type` of exactly the
      `variable` elements whose source is EnergyPlus and whose first child
      carries a `type`; nothing for any other element, including one that
      does not parse. */
  function Contributions(root: seq<Element>): (found: seq<Option<string>>)
    ensures |found| == |root|
    ensures forall i :: 0 <= i < |root| ==>
              (found[i].Some? <==>
                 (root[i].tag == "variable" && "source" in root[i].attrib && root[i].attrib["source"] == EnergyPlus
                  && |root[i].children| > 0 && "type" in root[i].children[0]))
    ensures forall i :: 0 <= i < |root| && found[i].Some? ==>
              |root[i].children| > 0 && "type" in root[i].children[0] && found[i].value == root[i].children[0]["type"]
  {
    seq(|root|, i requires 0 <= i < |root| => if EntryType(root[i]).Ok? then EntryType(root[i]).value else None)
  }

  /** On success the result lists, in document order and without
      deduplication, the type of exactly the selected elements: `idx` are
      their positions, strictly increasing, and no selected element is missed. */
  lemma {:induction false} SelectedPositions(root: seq<Element>) returns (idx: seq<nat>)
    requires EnergyPlusTypes(root).Ok?
    ensures |EnergyPlusTypes(root).value| <= |root|
    ensures IsSelection(Contributions(root), EnergyPlusTypes(root).value, idx)
  {
    ParseOkIffWellFormed(root);
    if |root| == 0 {
      idx := [];
    } else {
      ParseOkIffWellFormed(root[1..]);
      var rest := SelectedPositions(root[1..]);
      var found := Contributions(root);
      assert found == [found[0]] + Contributions(root[1..]);
      if found[0].Some? {
        idx := SelectionCons(found[0].value, Contributions(root[1..]), EnergyPlusTypes(root[1..]).value, rest);
      } else {
        idx := SelectionShift(Contributions(root[1..]), EnergyPlusTypes(root[1..]).value, rest);
      }
    }
  }

  /** The worked case: one EnergyPlus variable and one from another source. */
  lemma ParseExample()
    ensures EnergyPlusTypes([
      Element("variable", map["source" := "EnergyPlus"], [map["type" := "Zone Temp"]]),
      Element("variable", map["source" := "Other"], [map["type" := "Ignored"]])
    ]) == Ok(["Zone Temp"])
  {
    var a := Element("variable", map["source" := "EnergyPlus"], [map["type" := "Zone Temp"]]);
    var b := Element("variable", map["source" := "Other"], [map["type" := "Ignored"]]);
    assert EntryType(a) == Ok(Some("Zone Temp"));
    assert EntryType(b) == Ok(None);
    assert [a, b][1..] == [b];
    assert [b][1..] == [];
    assert EnergyPlusTypes([b]) == Ok([]);
    assert EnergyPlusTypes([a, b]) == Prepend(["Zone Temp"], Ok([]));
    assert ["Zone Temp"] + [] == ["Zone Temp"];
  }
}
