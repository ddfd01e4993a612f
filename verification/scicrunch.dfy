/** The pure parts of the SciCrunch client: the `NAMESPACES` prefix
    expander and compactor, and the choice `get_knowledge` makes of where to
    look an entity up. The lookups themselves are HTTP requests and are not
    modelled. */
module SciCrunch {
  import opened Wrappers
  import opened Text

  /** A namespace table: each prefix with its URI, in dictionary order. */
  type Table = seq<(string, string)>

  const IlxtrUri: string := "http://uri.interlex.org/tgbugs/uris/readable/"

  /** `NAMESPACES.namespaces`. */
  const Namespaces: Table := [("ilxtr", IlxtrUri)]

  /** What a dictionary of namespaces guarantees and the round trips need:
      prefixes are distinct and hold no colon, and no namespace URI begins
      with another. */
  predicate WellFormed(ns: Table)
  {
    && (forall i :: 0 <= i < |ns| ==> ':' !in ns[i].0)
    && (forall i, j :: 0 <= i < j < |ns| ==> ns[i].0 != ns[j].0)
    && (forall i, j :: 0 <= i < |ns| && 0 <= j < |ns| && i != j ==> !StartsWith(ns[i].1, ns[j].1))
  }

  /** `prefix in namespaces` and `namespaces[prefix]`. */
  function Expand(ns: Table, prefix: string): (r: Option<string>)
    ensures r.None? <==> forall i :: 0 <= i < |ns| ==> ns[i].0 != prefix
    ensures r.Some? ==> exists i :: 0 <= i < |ns| && ns[i] == (prefix, r.value)
  {
    if |ns| == 0 then None
    else if ns[0].0 == prefix then Some(ns[0].1)
    else
      var r := Expand(ns[1..], prefix);
      assert forall i :: 1 <= i < |ns| ==> ns[i] == ns[1..][i - 1];
      r
  }

  /** `NAMESPACES.uri(curie)`: split at the first colon; a known prefix is
      replaced by its URI, anything else comes back unchanged. */
  function Uri(ns: Table, curie: string): (r: string)
    ensures ':' !in curie ==> r == curie
    ensures r == curie || exists i :: 0 <= i < |ns| && StartsWith(r, ns[i].1)
  {
    match SplitFirst(curie, ':')
    case None => curie
    case Some(parts) =>
      match Expand(ns, parts.0)
      case None => curie
      case Some(u) => u + parts.1
  }

  /** `NAMESPACES.curie(uri)`: the first namespace whose URI begins `uri`
      turns that beginning into `prefix:`; with none, `uri` comes back
      unchanged. */
  function Curie(ns: Table, uri: string): (r: string)
    ensures (forall i :: 0 <= i < |ns| ==> !StartsWith(uri, ns[i].1)) ==> r == uri
    ensures forall i :: (0 <= i < |ns| && StartsWith(uri, ns[i].1) && (forall j :: 0 <= j < i ==> !StartsWith(uri, ns[j].1))
      ==> r == ns[i].0 + ":" + uri[|ns[i].1|..])
  {
    if |ns| == 0 then uri
    else if StartsWith(uri, ns[0].1) then ns[0].0 + ":" + uri[|ns[0].1|..]
    else
      var r := Curie(ns[1..], uri);
      assert forall i :: 1 <= i < |ns| ==> ns[i] == ns[1..][i - 1];
      r
  }

  /** Only the first colon splits: a colon-free prefix is read back whole. */
  lemma SplitAtFirst(p: string, rest: string)
    requires ':' !in p
    ensures SplitFirst(p + ":" + rest, ':') == Some((p, rest))
  {
    var s := p + ":" + rest;
    assert s[|p|] == ':';
    var parts := SplitFirst(s, ':').value;
    var q := parts.0;
    assert q == s[..|q|] == p;
    assert parts.1 == s[|p| + 1..] == rest;
  }

  /** Two beginnings of one string: the shorter begins the longer. */
  lemma PrefixesNest(s: string, a: string, c: string)
    requires StartsWith(s, a) && StartsWith(s, c) && |a| <= |c|
    ensures StartsWith(c, a)
  {
    assert c[..|a|] == s[..|c|][..|a|] == s[..|a|];
  }

  /** A string begins with at most one namespace URI. */
  lemma OnlyNamespace(ns: Table, s: string, i: nat, j: nat)
    requires WellFormed(ns) && i < |ns| && j < |ns|
    requires StartsWith(s, ns[i].1) && StartsWith(s, ns[j].1)
    ensures i == j
  {
    if |ns[i].1| <= |ns[j].1| {
      PrefixesNest(s, ns[i].1, ns[j].1);
    } else {
      PrefixesNest(s, ns[j].1, ns[i].1);
    }
  }

  /** A known prefix expands to its URI followed by everything after the
      first colon, colons included. */
  lemma UriExpands(ns: Table, i: nat, rest: string)
    requires WellFormed(ns) && i < |ns|
    ensures Uri(ns, ns[i].0 + ":" + rest) == ns[i].1 + rest
  {
    SplitAtFirst(ns[i].0, rest);
    var u := Expand(ns, ns[i].0);
    var k :| 0 <= k < |ns| && ns[k] == (ns[i].0, u.value);
  }

  /** An unknown prefix leaves the text as it is. */
  lemma UriUnknown(ns: Table, p: string, rest: string)
    requires ':' !in p && forall i :: 0 <= i < |ns| ==> ns[i].0 != p
    ensures Uri(ns, p + ":" + rest) == p + ":" + rest
  {
    SplitAtFirst(p, rest);
  }

  /** Compacting an expanded name gives the name back. */
  lemma CurieOfUri(ns: Table, i: nat, rest: string)
    requires WellFormed(ns) && i < |ns|
    ensures Curie(ns, Uri(ns, ns[i].0 + ":" + rest)) == ns[i].0 + ":" + rest
  {
    UriExpands(ns, i, rest);
    var s := ns[i].1 + rest;
    assert StartsWith(s, ns[i].1);
    forall j | 0 <= j < i
      ensures !StartsWith(s, ns[j].1)
    {
      if StartsWith(s, ns[j].1) {
        OnlyNamespace(ns, s, i, j);
      }
    }
    assert s[|ns[i].1|..] == rest;
  }

  /** Expanding a compacted URI gives the URI back. */
  lemma UriOfCurie(ns: Table, i: nat, s: string)
    requires WellFormed(ns) && i < |ns| && StartsWith(s, ns[i].1)
    ensures Uri(ns, Curie(ns, s)) == s
  {
    forall j | 0 <= j < i
      ensures !StartsWith(s, ns[j].1)
    {
      if StartsWith(s, ns[j].1) {
        OnlyNamespace(ns, s, i, j);
      }
    }
    var rest := s[|ns[i].1|..];
    UriExpands(ns, i, rest);
    assert s == ns[i].1 + rest;
  }

  lemma NamespacesWellFormed()
    ensures WellFormed(Namespaces)
  {
  }

  /** `uri('ilxtr:' + r)` is the readable namespace followed by `r`, and
      `curie` takes it back. */
  lemma IlxtrRoundTrip(r: string)
    ensures Uri(Namespaces, "ilxtr:" + r) == IlxtrUri + r
    ensures Curie(Namespaces, Uri(Namespaces, "ilxtr:" + r)) == "ilxtr:" + r
  {
    NamespacesWellFormed();
    assert Namespaces[0].0 + ":" + r == "ilxtr:" + r;
    UriExpands(Namespaces, 0, r);
    CurieOfUri(Namespaces, 0, r);
  }

  /** `curie` of a readable-namespace URI is undone by `uri`. */
  lemma IlxtrUriRoundTrip(u: string)
    requires StartsWith(u, IlxtrUri)
    ensures Uri(Namespaces, Curie(Namespaces, u)) == u
  {
    NamespacesWellFormed();
    UriOfCurie(Namespaces, 0, u);
  }

  // ---------------------------------------------------------- get_knowledge

  const InterlexOntologies: set<string> := {"ILX", "NLX"}

  const ConnectivityOntologies: set<string> := {"ilxtr"}

  const ApinatomyModelPrefix: string := "https://apinatomy.org/uris/models/"

  /** Where `get_knowledge` looks an entity up: nowhere without an API key
      (the knowledge is then empty), the InterLex vocabulary, the neuron
      connectivity of an ApiNATOMY neuron, the neurons of an ApiNATOMY model,
      or the SPARC vocabulary. */
  datatype Lookup = NoLookup | Interlex | NeuronConnectivity | ModelNeurons | SparcVocabulary

  /** The branch `SciCrunch.get_knowledge(entity)` takes: by the ontology
      before the first colon first, then by the model URI prefix. */
  function Route(hasKey: bool, entity: string): (r: Lookup)
    ensures r == NoLookup <==> !hasKey
    ensures r == Interlex <==> hasKey && BeforeFirst(entity, ':') in InterlexOntologies
    ensures r == NeuronConnectivity <==> hasKey && BeforeFirst(entity, ':') in ConnectivityOntologies
    ensures r == ModelNeurons <==>
      && hasKey
      && BeforeFirst(entity, ':') !in InterlexOntologies + ConnectivityOntologies
      && StartsWith(entity, ApinatomyModelPrefix)
    ensures r == SparcVocabulary <==>
      && hasKey
      && BeforeFirst(entity, ':') !in InterlexOntologies + ConnectivityOntologies
      && !StartsWith(entity, ApinatomyModelPrefix)
  {
    var ontology := BeforeFirst(entity, ':');
    if !hasKey then NoLookup
    else if ontology in InterlexOntologies then Interlex
    else if ontology in ConnectivityOntologies then NeuronConnectivity
    else if StartsWith(entity, ApinatomyModelPrefix) then ModelNeurons
    else SparcVocabulary
  }

  /** The branch depends only on the ontology before the first colon:
      whatever follows it, an InterLex or connectivity ontology decides. */
  lemma RouteByOntology(o: string, rest: string)
    requires ':' !in o
    ensures o in InterlexOntologies ==> Route(true, o + ":" + rest) == Interlex
    ensures o in ConnectivityOntologies ==> Route(true, o + ":" + rest) == NeuronConnectivity
  {
    SplitAtFirst(o, rest);
  }

  /** An entity without a colon is its own ontology: a bare `ILX`, `NLX`
      or `ilxtr` is looked up as such, and any other colon-free entity goes
      to the SPARC vocabulary. */
  lemma ColonFreeRouted(entity: string)
    requires ':' !in entity
    ensures entity in InterlexOntologies ==> Route(true, entity) == Interlex
    ensures entity in ConnectivityOntologies ==> Route(true, entity) == NeuronConnectivity
    ensures entity !in InterlexOntologies + ConnectivityOntologies ==> Route(true, entity) == SparcVocabulary
  {
    ModelUriHasColon(entity);
  }

  lemma ModelUriHasColon(entity: string)
    ensures StartsWith(entity, ApinatomyModelPrefix) ==> ':' in entity
  {
    if StartsWith(entity, ApinatomyModelPrefix) {
      assert entity[5] == ApinatomyModelPrefix[5];
    }
  }

  /** A model URI always reaches the model lookup: its ontology is `https`,
      which neither ontology list holds. */
  lemma ModelUrisRouted(entity: string)
    requires StartsWith(entity, ApinatomyModelPrefix)
    ensures Route(true, entity) == ModelNeurons
  {
    var rest := entity[6..];
    assert entity == "https" + ":" + rest by {
      assert entity[..|ApinatomyModelPrefix|] == ApinatomyModelPrefix;
      assert entity[..6] == ApinatomyModelPrefix[..6] == "https:";
    }
    SplitAtFirst("https", rest);
  }

  /** A readable-namespace URI, compacted, is looked up as a neuron. */
  lemma CurieRoutesToConnectivity(u: string)
    requires StartsWith(u, IlxtrUri)
    ensures Route(true, Curie(Namespaces, u)) == NeuronConnectivity
  {
    NamespacesWellFormed();
    var rest := u[|IlxtrUri|..];
    assert Curie(Namespaces, u) == "ilxtr" + ":" + rest;
    RouteByOntology("ilxtr", rest);
  }
}
