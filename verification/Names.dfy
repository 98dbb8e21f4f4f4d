/** Names of control-plane namespaces and of the objects kept in them. */
module Names {

  const NAMESPACE_PREFIX := "stellaris-harmonycloud-cn-"

  function ClusterNamespace(clusterName: string): string {
    NAMESPACE_PREFIX + clusterName
  }

  ghost predicate Contains(s: string, sub: string) {
    exists i :: 0 <= i <= |s| && sub <= s[i..]
  }

  predicate ContainsFrom(s: string, sub: string)
    ensures ContainsFrom(s, sub) <==> Contains(s, sub)
  {
    ContainsStep(s, sub);
    if sub <= s then true
    else if s == "" then false
    else ContainsFrom(s[1..], sub)
  }

  lemma ContainsStep(s: string, sub: string)
    ensures Contains(s, sub) <==> sub <= s || (s != "" && Contains(s[1..], sub))
  {
    assert s[0..] == s;
    if s != "" {
      if i :| 0 <= i <= |s[1..]| && sub <= s[1..][i..] {
        assert s[1..][i..] == s[i + 1..];
      }
      if i :| 0 <= i <= |s| && sub <= s[i..] {
        assert i > 0 ==> s[1..][i - 1..] == s[i..];
      }
    }
  }

  /** strings.Replace(s, sub, "", -1): every occurrence is cut out, leftmost first. */
  function CutAll(s: string, sub: string): string
    requires sub != ""
  {
    if s == "" then ""
    else if sub <= s then CutAll(s[|sub|..], sub)
    else [s[0]] + CutAll(s[1..], sub)
  }

  function ClusterName(namespace: string): string {
    if ContainsFrom(namespace, NAMESPACE_PREFIX) then CutAll(namespace, NAMESPACE_PREFIX) else ""
  }

  lemma {:induction false} CutAllShortens(s: string, sub: string)
    requires sub != ""
    ensures |CutAll(s, sub)| <= |s|
    ensures CutAll(s, sub) == s <==> !Contains(s, sub)
    ensures Contains(s, sub) ==> |CutAll(s, sub)| < |s|
  {
    ContainsStep(s, sub);
    if s != "" {
      if sub <= s {
        CutAllShortens(s[|sub|..], sub);
      } else {
        CutAllShortens(s[1..], sub);
        assert s == [s[0]] + s[1..];
      }
    }
  }

  /** A cluster's name comes back from its namespace exactly when it does not contain the prefix itself. */
  lemma ClusterNameRoundTrip(clusterName: string)
    ensures ClusterName(ClusterNamespace(clusterName)) == clusterName <==> !Contains(clusterName, NAMESPACE_PREFIX)
  {
    var namespace := ClusterNamespace(clusterName);
    ContainsStep(namespace, NAMESPACE_PREFIX);
    assert namespace[|NAMESPACE_PREFIX|..] == clusterName;
    CutAllShortens(clusterName, NAMESPACE_PREFIX);
  }

  /** A resource's kind, with its group and version. */
  datatype Gvk = Gvk(group: string, version: string, kind: string)

  function LowerCase(s: string): (r: string)
    ensures |r| == |s|
    ensures forall i :: 0 <= i < |s| ==> r[i] == if 'A' <= s[i] <= 'Z' then s[i] - 'A' + 'a' else s[i]
  {
    seq(|s|, i requires 0 <= i < |s| => if 'A' <= s[i] <= 'Z' then s[i] - 'A' + 'a' else s[i])
  }

  /** GvkLabelString. */
  function GvkLabel(gvk: Gvk): string {
    if gvk.group == "" then gvk.version + "." + LowerCase(gvk.kind)
    else gvk.group + "." + gvk.version + "." + LowerCase(gvk.kind)
  }

  /** getClusterResourceName: the binding name and the kind. */
  function ClusterResourceName(bindingName: string, gvk: Gvk): string {
    bindingName + "." + GvkLabel(gvk)
  }

  predicate SameKind(a: Gvk, b: Gvk) {
    a.group == b.group && a.version == b.version && LowerCase(a.kind) == LowerCase(b.kind)
  }

  /** Names of versions and kinds, as the API server admits them. */
  predicate PlainKind(gvk: Gvk) {
    DotFree(gvk.version) && DotFree(gvk.kind)
  }

  /** The names of one binding's objects tell kinds apart, but for upper and lower case. */
  lemma NamesTellKinds(bindingName: string, a: Gvk, b: Gvk)
    requires PlainKind(a) && PlainKind(b)
    ensures ClusterResourceName(bindingName, a) == ClusterResourceName(bindingName, b) <==> SameKind(a, b)
  {
    var prefix := bindingName + ".";
    assert ClusterResourceName(bindingName, a)[|prefix|..] == GvkLabel(a);
    assert ClusterResourceName(bindingName, b)[|prefix|..] == GvkLabel(b);
    LowerStaysPlain(a.kind);
    LowerStaysPlain(b.kind);
    if GvkLabel(a) == GvkLabel(b) {
      LastDot(GroupAndVersion(a), LowerCase(a.kind));
      LastDot(GroupAndVersion(b), LowerCase(b.kind));
      LastDotAgrees(GroupAndVersion(a), LowerCase(a.kind), GroupAndVersion(b), LowerCase(b.kind));
      SameGroupAndVersion(a, b);
    }
  }

  lemma LowerStaysPlain(s: string)
    requires DotFree(s)
    ensures DotFree(LowerCase(s))
  {
  }

  function GroupAndVersion(gvk: Gvk): string {
    if gvk.group == "" then gvk.version else gvk.group + "." + gvk.version
  }

  lemma LastDot(front: string, last: string)
    requires DotFree(last)
    ensures var s := front + "." + last;
      s[|front|] == '.' && s[..|front|] == front && s[|front| + 1..] == last
      && forall i :: |front| < i < |s| ==> s[i] != '.'
  {
  }

  /** What stands before and behind the last dot. */
  lemma LastDotAgrees(a: string, x: string, b: string, y: string)
    requires DotFree(x) && DotFree(y) && a + "." + x == b + "." + y
    ensures a == b && x == y
  {
    LastDot(a, x);
    LastDot(b, y);
  }

  lemma SameGroupAndVersion(a: Gvk, b: Gvk)
    requires DotFree(a.version) && DotFree(b.version) && GroupAndVersion(a) == GroupAndVersion(b)
    ensures a.group == b.group && a.version == b.version
  {
    Dotted(a.group, a.version);
    Dotted(b.group, b.version);
    if a.group != "" && b.group != "" {
      LastDotAgrees(a.group, a.version, b.group, b.version);
    }
  }

  lemma Dotted(group: string, version: string)
    ensures !DotFree(group + "." + version)
  {
    assert (group + "." + version)[|group|] == '.';
  }

  /** mapKey. */
  function MapKey(namespace: string, name: string): string {
    namespace + "." + name
  }

  predicate DotFree(s: string) {
    '.' !in s
  }

  /** Over namespaces without a dot, as the API server demands, the key tells all objects apart. */
  lemma MapKeyInjective(ns1: string, n1: string, ns2: string, n2: string)
    requires DotFree(ns1) && DotFree(ns2)
    ensures MapKey(ns1, n1) == MapKey(ns2, n2) <==> ns1 == ns2 && n1 == n2
  {
    if MapKey(ns1, n1) == MapKey(ns2, n2) {
      var k := MapKey(ns1, n1);
      FirstDot(ns1, n1);
      FirstDot(ns2, n2);
      assert n1 == k[|ns1| + 1..] && n2 == k[|ns2| + 1..];
    }
  }

  /** The namespace is what comes before the first dot. */
  lemma FirstDot(namespace: string, name: string)
    requires DotFree(namespace)
    ensures var k := MapKey(namespace, name);
      k[|namespace|] == '.' && k[..|namespace|] == namespace && forall i :: 0 <= i < |namespace| ==> k[i] != '.'
  {
  }

  /** With dots allowed it does not. */
  lemma MapKeyClash()
    ensures MapKey("a.b", "c") == MapKey("a", "b.c")
  {
  }
}
