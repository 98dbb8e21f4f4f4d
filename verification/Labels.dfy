/** The labels by which bindings are found from the MultiClusterResources they name. */
module Labels {
  import opened BindingModel

  const RESOURCE_LABEL := "stellaris.MultiClusterResource"

  function LabelKey(resourceName: string): string {
    RESOURCE_LABEL + "." + resourceName
  }

  predicate IsResourceLabel(key: string) {
    RESOURCE_LABEL <= key
  }

  /** getMultiClusterResourceLabels. */
  function CurrentLabels(labels: map<string, string>): map<string, string> {
    map k | k in labels && IsResourceLabel(k) :: labels[k]
  }

  /** Labels the controller has nothing to do with. */
  function OtherLabels(labels: map<string, string>): map<string, string> {
    map k | k in labels && !IsResourceLabel(k) :: labels[k]
  }

  function ShouldExistLabels(resources: seq<BindingResource>): map<string, string> {
    if resources == [] then map[]
    else ShouldExistLabels(resources[..|resources| - 1])[LabelKey(resources[|resources| - 1].name) := "1"]
  }

  function ReplacedLabels(labels: map<string, string>, remove: map<string, string>, add: map<string,
                          string>): map<string, string> {
    if labels == map[] || remove == map[] then add
    else if labels == remove then add
    else (labels - remove.Keys) + add
  }

  predicate ShouldChangeLabels(b: Binding) {
    && b.resources != []
    && (CurrentLabels(b.labels) == map[] || ShouldExistLabels(b.resources) != CurrentLabels(b.labels))
  }

  /** addBindingLabels. */
  function WithLabels(b: Binding): Binding {
    b.(labels := ReplacedLabels(b.labels, CurrentLabels(b.labels), ShouldExistLabels(b.resources)))
  }

  predicate Names(resources: seq<BindingResource>, name: string) {
    exists i :: 0 <= i < |resources| && resources[i].name == name
  }

  lemma {:induction false} ShouldExistIs(resources: seq<BindingResource>)
    ensures forall k :: k in ShouldExistLabels(resources) ==>
      IsResourceLabel(k) && ShouldExistLabels(resources)[k] == "1"
    ensures forall name :: LabelKey(name) in ShouldExistLabels(resources) <==> Names(resources, name)
  {
    if resources != [] {
      var init, last := resources[..|resources| - 1], resources[|resources| - 1];
      ShouldExistIs(init);
      forall name ensures LabelKey(name) in ShouldExistLabels(resources) <==> Names(resources, name) {
        SameKeySameName(name, last.name);
        if Names(resources, name) {
          var i :| 0 <= i < |resources| && resources[i].name == name;
          if i < |init| {
            assert init[i].name == name;
          }
        }
        if Names(init, name) {
          var i :| 0 <= i < |init| && init[i].name == name;
          assert resources[i].name == name;
        }
        if name == last.name {
          assert resources[|resources| - 1].name == name;
        }
      }
    }
  }

  lemma SameKeySameName(a: string, b: string)
    ensures LabelKey(a) == LabelKey(b) ==> a == b
  {
    var n := |RESOURCE_LABEL + "."|;
    assert LabelKey(a)[n..] == a && LabelKey(b)[n..] == b;
  }

  lemma CurrentAfter(b: Binding)
    ensures CurrentLabels(WithLabels(b).labels) == ShouldExistLabels(b.resources)
  {
    ShouldExistIs(b.resources);
    var add, current := ShouldExistLabels(b.resources), CurrentLabels(b.labels);
    assert CurrentLabels(add) == add;
    if !(b.labels == map[] || current == map[] || b.labels == current) {
      var merged := (b.labels - current.Keys) + add;
      assert forall k :: k in merged && IsResourceLabel(k) ==> k in add;
      assert CurrentLabels(merged) == add;
    }
  }

  /** One labelling step is enough: afterwards nothing is left to change. */
  lemma LabelsStabilise(b: Binding)
    ensures !ShouldChangeLabels(WithLabels(b))
  {
    CurrentAfter(b);
    if b.resources != [] {
      ShouldExistIs(b.resources);
      assert b.resources[0].name == b.resources[0].name;
      assert Names(b.resources, b.resources[0].name);
    }
  }

  /** A list call selecting `stellaris.MultiClusterResource.<name>=1`. */
  predicate SelectedBy(b: Binding, name: string) {
    var key := "stellaris.MultiClusterResource." + name;
    key in b.labels && b.labels[key] == "1"
  }

  /** On a non-empty binding whose labels need no change, the label index answers exactly what a scan
      of its resources would. */
  lemma IndexIsScan(b: Binding, name: string)
    requires b.resources != [] && !ShouldChangeLabels(b)
    ensures SelectedBy(b, name) <==> Names(b.resources, name)
  {
    ShouldExistIs(b.resources);
    assert CurrentLabels(b.labels) == ShouldExistLabels(b.resources);
    assert LabelKey(name) == "stellaris.MultiClusterResource." + name && IsResourceLabel(LabelKey(name));
  }

  /** The step keeps the labels of others exactly when there are none, or when the binding already
      carried a resource label: a binding labelled for the first time loses its own labels. */
  lemma OthersKept(b: Binding)
    ensures OtherLabels(WithLabels(b).labels) == OtherLabels(b.labels)
      <==> OtherLabels(b.labels) == map[] || CurrentLabels(b.labels) != map[]
  {
    ShouldExistIs(b.resources);
    var add, current := ShouldExistLabels(b.resources), CurrentLabels(b.labels);
    assert OtherLabels(add) == map[];
    if b.labels == map[] || current == map[] {
    } else if b.labels == current {
      assert forall k :: k in b.labels ==> k in current;
      assert OtherLabels(b.labels) == map[];
    } else {
      var merged := (b.labels - current.Keys) + add;
      assert forall k :: k in b.labels && !IsResourceLabel(k) ==> k !in current && k !in add;
      assert OtherLabels(merged) == OtherLabels(b.labels);
    }
  }

  // ---------- the loops ----------

  /** shouldExistLabels, filling the map entry by entry. */
  method BuildShouldExistLabels(resources: seq<BindingResource>) returns (labels: map<string, string>)
    ensures labels == ShouldExistLabels(resources)
  {
    labels := map[];
    for i := 0 to |resources|
      invariant labels == ShouldExistLabels(resources[..i])
    {
      assert resources[..i + 1][..i] == resources[..i];
      labels := labels[LabelKey(resources[i].name) := "1"];
    }
    assert resources[..|resources|] == resources;
  }

  /** A binding's label map, which replaceLabels edits in place. */
  class LabelMap {
    var entries: map<string, string>

    constructor (entries: map<string, string>)
      ensures this.entries == entries
    {
      this.entries := entries;
    }

    /** replaceLabels: the label map to set. The first two cases give the new labels as they are. */
    method ReplaceLabels(remove: map<string, string>, add: map<string, string>) returns (labels: map<string, string>)
      modifies this
      ensures labels == ReplacedLabels(old(entries), remove, add)
    {
      if |entries| == 0 || |remove| == 0 || entries == remove {
        return add;
      }
      DeleteAll(remove.Keys);
      PutAll(add);
      labels := entries;
    }

    method DeleteAll(remove: set<string>)
      modifies this
      ensures entries == old(entries) - remove
    {
      var keys := remove;
      while keys != {}
        invariant keys <= remove
        invariant entries == old(entries) - (remove - keys)
        decreases keys
      {
        var k :| k in keys;
        entries := entries - {k};
        keys := keys - {k};
      }
    }

    method PutAll(add: map<string, string>)
      modifies this
      ensures entries == old(entries) + add
    {
      var keys := add.Keys;
      while keys != {}
        invariant keys <= add.Keys
        invariant entries == old(entries) + (add - keys)
        decreases keys
      {
        var k :| k in keys;
        entries := entries[k := add[k]];
        keys := keys - {k};
      }
    }
  }
}
