/** Interface extraction: turning `TsInterfaceDeclaration` nodes into
    `InterfaceDef` values, and collecting them from a module's top-level
    items. Every malformed member aborts the whole extraction. */
module Interfaces {
  import opened SwcAst

  /** One property of an interface: its declared name and, when it is
      annotated with a keyword type, that keyword. */
  datatype InterfaceProp = InterfaceProp(name: string, kind: Option<Keyword>)

  /** An interface: its declared name and its properties in declaration order. */
  datatype InterfaceDef = InterfaceDef(name: string, properties: seq<InterfaceProp>)

  /** Why an interface could not be converted. The first two carry the
      discriminant that was found instead of the expected one. */
  datatype ExtractError =
    | UnexpectedMember(found: string)   // body item is not a TsPropertySignature
    | UnexpectedKey(found: string)      // property key is not an Identifier
    | UnsupportedAnnotation             // annotation is not a TsKeywordType

  /** A value, or the error that was thrown instead. */
  datatype Result<+T> = Success(value: T) | Failure(error: ExtractError)

  // ---------------------------------------------------------------------
  // Mapping with a closure that may throw
  // ---------------------------------------------------------------------

  /** `k` is the position of the first element on which `f` fails. */
  predicate FailsFirstAt<A, B>(f: A -> Result<B>, s: seq<A>, k: int)
  {
    0 <= k < |s| && f(s[k]).Failure? &&
    forall i :: 0 <= i < k ==> f(s[i]).Success?
  }

  lemma FirstFailureUnique<A, B>(f: A -> Result<B>, s: seq<A>, k: int, k': int)
    requires FailsFirstAt(f, s, k) && FailsFirstAt(f, s, k')
    ensures k == k'
  {
  }

  /** `Array.prototype.map` with a closure that may throw: the elements are
      visited left to right, and the first throw aborts the whole map. */
  function MapOrFail<A, B>(f: A -> Result<B>, s: seq<A>): (r: Result<seq<B>>)
    ensures r.Success? <==> forall i :: 0 <= i < |s| ==> f(s[i]).Success?
    ensures r.Success? ==>
      |r.value| == |s| && forall i :: 0 <= i < |s| ==> f(s[i]) == Success(r.value[i])
    ensures r.Failure? ==> exists k :: FailsFirstAt(f, s, k) && r.error == f(s[k]).error
  {
    if s == [] then Success([])
    else
      match f(s[0])
      case Failure(e) =>
        assert FailsFirstAt(f, s, 0);
        Failure(e)
      case Success(b) =>
        var rest := MapOrFail(f, s[1..]);
        if rest.Failure? then
          assert exists k :: FailsFirstAt(f, s, k) && rest.error == f(s[k]).error by {
            var k :| FailsFirstAt(f, s[1..], k) && rest.error == f(s[1..][k]).error;
            assert FailsFirstAt(f, s, k + 1);
          }
          Failure(rest.error)
        else
          Success([b] + rest.value)
  }

  /** Mapping over a concatenation: succeeds exactly when both halves do,
      with the two results concatenated; otherwise the left half's error
      wins over the right half's. */
  lemma {:induction false} MapOrFailConcat<A, B>(f: A -> Result<B>, a: seq<A>, b: seq<A>)
    ensures MapOrFail(f, a + b).Success? <==> MapOrFail(f, a).Success? && MapOrFail(f, b).Success?
    ensures MapOrFail(f, a + b).Success? ==>
      MapOrFail(f, a + b).value == MapOrFail(f, a).value + MapOrFail(f, b).value
    ensures MapOrFail(f, a).Failure? ==> MapOrFail(f, a + b) == MapOrFail(f, a)
    ensures MapOrFail(f, a).Success? && MapOrFail(f, b).Failure? ==>
      MapOrFail(f, a + b) == MapOrFail(f, b)
  {
    if a == [] {
      assert a + b == b;
    } else {
      assert (a + b)[0] == a[0];
      assert (a + b)[1..] == a[1..] + b;
      MapOrFailConcat(f, a[1..], b);
      if f(a[0]).Success? && MapOrFail(f, a[1..]).Success? && MapOrFail(f, b).Success? {
        assert MapOrFail(f, a + b).value == [f(a[0]).value] + MapOrFail(f, a[1..] + b).value;
      }
    }
  }

  // ---------------------------------------------------------------------
  // One member to one property (the closure of the constructor's map)
  // ---------------------------------------------------------------------

  /** `m` is a member the constructor accepts: a property signature with an
      identifier key and, if annotated, a keyword-type annotation. */
  predicate Supported(m: InterfaceMember)
  {
    m.PropertySignature? && m.key.IdentifierKey? &&
    (m.typeAnnotation.Some? ==> m.typeAnnotation.value.KeywordType?)
  }

  /** `p` is the property that member `m` declares: its name is the key's
      text, and its kind is the annotation's keyword, absent when the
      member has no annotation. */
  predicate Describes(p: InterfaceProp, m: InterfaceMember)
  {
    m.PropertySignature? && m.key.IdentifierKey? &&
    p.name == m.key.id.value &&
    match m.typeAnnotation
    case None => p.kind == None
    case Some(t) => t.KeywordType? && p.kind == Some(t.kind)
  }

  /** Converts one interface body item, throwing on anything but a property
      signature with an identifier key and an optional keyword annotation. */
  function ConvertMember(m: InterfaceMember): (r: Result<InterfaceProp>)
    ensures r.Success? <==> Supported(m)
    ensures r.Success? ==> Describes(r.value, m)
    ensures m.OtherMember? ==> r == Failure(UnexpectedMember(m.tag))
    ensures m.PropertySignature? && m.key.OtherKey? ==> r == Failure(UnexpectedKey(m.key.tag))
    ensures m.PropertySignature? && m.key.IdentifierKey? && !Supported(m) ==>
      r == Failure(UnsupportedAnnotation)
  {
    match m
    case OtherMember(tag) => Failure(UnexpectedMember(tag))
    case PropertySignature(key, annotation) =>
      match key
      case OtherKey(tag) => Failure(UnexpectedKey(tag))
      case IdentifierKey(id) =>
        match annotation
        case None => Success(InterfaceProp(id.value, None))
        case Some(KeywordType(kind)) => Success(InterfaceProp(id.value, Some(kind)))
        case Some(OtherType(_)) => Failure(UnsupportedAnnotation)
  }

  // ---------------------------------------------------------------------
  // One declaration to one interface (the constructor)
  // ---------------------------------------------------------------------

  /** What `new Interface(node)` builds, or the error it throws. */
  function NewInterface(node: InterfaceDeclaration): (r: Result<InterfaceDef>)
    ensures r.Success? <==> forall i :: 0 <= i < |node.body| ==> Supported(node.body[i])
    ensures r.Success? ==>
      r.value.name == node.id.value &&
      |r.value.properties| == |node.body| &&
      forall i :: 0 <= i < |node.body| ==> Describes(r.value.properties[i], node.body[i])
    ensures r.Failure? ==>
      exists k :: FailsFirstAt(ConvertMember, node.body, k) && r.error == ConvertMember(node.body[k]).error
  {
    var props := MapOrFail(ConvertMember, node.body);
    if props.Failure? then
      Failure(props.error)
    else
      assert forall i :: 0 <= i < |node.body| ==> ConvertMember(node.body[i]) == Success(props.value[i]);
      Success(InterfaceDef(node.id.value, props.value))
  }

  /** A member that is not a property signature makes the conversion fail
      wherever it sits in the body, and no interface is produced. */
  lemma RejectsNonPropertyMember(node: InterfaceDeclaration, k: int)
    requires 0 <= k < |node.body| && node.body[k].OtherMember?
    ensures NewInterface(node).Failure?
  {
  }

  // ---------------------------------------------------------------------
  // Top-level scan
  // ---------------------------------------------------------------------

  /** The interface declarations among `nodes`, in order; every other item
      is skipped. */
  function Declarations(nodes: seq<ModuleItem>): (r: seq<InterfaceDeclaration>)
    ensures |r| <= |nodes|
  {
    if nodes == [] then []
    else
      var rest := Declarations(nodes[1..]);
      match nodes[0]
      case InterfaceItem(d) => [d] + rest
      case OtherItem(_) => rest
  }

  lemma {:induction false} DeclarationsConcat(a: seq<ModuleItem>, b: seq<ModuleItem>)
    ensures Declarations(a + b) == Declarations(a) + Declarations(b)
  {
    if a == [] {
      assert a + b == b;
    } else {
      assert (a + b)[0] == a[0];
      assert (a + b)[1..] == a[1..] + b;
      DeclarationsConcat(a[1..], b);
    }
  }

  /** Every top-level interface declaration is selected, and nothing else. */
  lemma {:induction false} DeclarationsExactly(nodes: seq<ModuleItem>, d: InterfaceDeclaration)
    ensures d in Declarations(nodes) <==> InterfaceItem(d) in nodes
  {
    if nodes != [] {
      DeclarationsExactly(nodes[1..], d);
      assert nodes == [nodes[0]] + nodes[1..];
    }
  }

  /** Items with no interface declaration among them select nothing. */
  lemma {:induction false} DeclarationsOfNone(nodes: seq<ModuleItem>)
    requires forall i :: 0 <= i < |nodes| ==> nodes[i].OtherItem?
    ensures Declarations(nodes) == []
  {
    if nodes != [] {
      DeclarationsOfNone(nodes[1..]);
    }
  }

  /** Items that are all interface declarations are all selected, in order. */
  lemma {:induction false} DeclarationsOfAll(nodes: seq<ModuleItem>)
    requires forall i :: 0 <= i < |nodes| ==> nodes[i].InterfaceItem?
    ensures |Declarations(nodes)| == |nodes|
    ensures forall i :: 0 <= i < |nodes| ==> Declarations(nodes)[i] == nodes[i].decl
  {
    if nodes != [] {
      DeclarationsOfAll(nodes[1..]);
    }
  }

  /** What `Interface.ExtractAll(nodes)` returns, or the error it throws. */
  function Extraction(nodes: seq<ModuleItem>): (r: Result<seq<InterfaceDef>>)
    ensures r.Success? <==>
      forall i :: 0 <= i < |nodes| && nodes[i].InterfaceItem? ==> NewInterface(nodes[i].decl).Success?
    ensures r.Success? ==>
      |r.value| == |Declarations(nodes)| &&
      forall k :: 0 <= k < |r.value| ==>
        NewInterface(Declarations(nodes)[k]) == Success(r.value[k]) &&
        r.value[k].name == Declarations(nodes)[k].id.value
    ensures r.Failure? ==>
      exists k :: FailsFirstAt(NewInterface, Declarations(nodes), k) &&
                  r.error == NewInterface(Declarations(nodes)[k]).error
  {
    var decls := Declarations(nodes);
    var r := MapOrFail(NewInterface, decls);
    assert r.Success? <==>
      forall i :: 0 <= i < |nodes| && nodes[i].InterfaceItem? ==> NewInterface(nodes[i].decl).Success? by {
      forall i | 0 <= i < |nodes| && nodes[i].InterfaceItem?
        ensures nodes[i].decl in decls
      {
        DeclarationsExactly(nodes, nodes[i].decl);
      }
      forall k | 0 <= k < |decls|
        ensures exists i :: 0 <= i < |nodes| && nodes[i] == InterfaceItem(decls[k])
      {
        DeclarationsExactly(nodes, decls[k]);
      }
    }
    r
  }

  /** Extraction maps the constructor over the selected declarations. */
  lemma ExtractionMapsDeclarations(nodes: seq<ModuleItem>)
    ensures Extraction(nodes) == MapOrFail(NewInterface, Declarations(nodes))
  {
  }

  /** Input without interface declarations extracts to the empty list,
      never to an error. */
  lemma ExtractionOfNone(nodes: seq<ModuleItem>)
    requires forall i :: 0 <= i < |nodes| ==> nodes[i].OtherItem?
    ensures Extraction(nodes) == Success([])
  {
    DeclarationsOfNone(nodes);
  }

  /** Extraction works item by item in order: extracting `a + b` succeeds
      exactly when extracting `a` and `b` both do, gives their interfaces
      one after the other, and otherwise reports the first error. */
  lemma ExtractionConcat(a: seq<ModuleItem>, b: seq<ModuleItem>)
    ensures Extraction(a + b).Success? <==> Extraction(a).Success? && Extraction(b).Success?
    ensures Extraction(a + b).Success? ==>
      Extraction(a + b).value == Extraction(a).value + Extraction(b).value
    ensures Extraction(a).Failure? ==> Extraction(a + b) == Extraction(a)
    ensures Extraction(a).Success? && Extraction(b).Failure? ==> Extraction(a + b) == Extraction(b)
  {
    DeclarationsConcat(a, b);
    MapOrFailConcat(NewInterface, Declarations(a), Declarations(b));
  }

  /** An item that is not an interface declaration has no effect on the
      extraction, wherever it sits. */
  lemma ExtractionSkipsOtherItem(a: seq<ModuleItem>, tag: string, b: seq<ModuleItem>)
    ensures Extraction(a + [OtherItem(tag)] + b) == Extraction(a + b)
  {
    DeclarationsConcat(a + [OtherItem(tag)], b);
    DeclarationsConcat(a, [OtherItem(tag)]);
    DeclarationsConcat(a, b);
    assert [OtherItem(tag)][1..] == [];
    assert Declarations([OtherItem(tag)]) == [];
    assert Declarations(a + [OtherItem(tag)] + b) == Declarations(a + b);
    ExtractionMapsDeclarations(a + [OtherItem(tag)] + b);
    ExtractionMapsDeclarations(a + b);
  }

  /** A module made only of well-formed interface declarations extracts to
      exactly one interface per declaration, in order. */
  lemma ExtractionOfAll(nodes: seq<ModuleItem>)
    requires forall i :: 0 <= i < |nodes| ==> nodes[i].InterfaceItem?
    requires forall i, j :: 0 <= i < |nodes| && 0 <= j < |nodes[i].decl.body| ==>
      Supported(nodes[i].decl.body[j])
    ensures Extraction(nodes).Success?
    ensures |Extraction(nodes).value| == |nodes|
    ensures forall i :: 0 <= i < |nodes| ==>
      Extraction(nodes).value[i].name == nodes[i].decl.id.value &&
      |Extraction(nodes).value[i].properties| == |nodes[i].decl.body|
  {
    DeclarationsOfAll(nodes);
  }

  /** Every extracted interface has a non-empty name, as the guard
      generator needs. */
  lemma ExtractedNamesNonEmpty(nodes: seq<ModuleItem>)
    requires Extraction(nodes).Success?
    ensures forall k :: 0 <= k < |Extraction(nodes).value| ==> |Extraction(nodes).value[k].name| > 0
  {
  }

  // ---------------------------------------------------------------------
  // The Interface class
  // ---------------------------------------------------------------------

  /** An interface for which a guard is generated. Its two fields are set
      by the constructor and never assigned again. */
  class Interface {
    const name: string
    const properties: seq<InterfaceProp>

    /** The plain `InterfaceDef` this object holds. */
    function Def(): InterfaceDef
    {
      InterfaceDef(name, properties)
    }

    constructor Init(def: InterfaceDef)
      ensures Def() == def
    {
      name := def.name;
      properties := def.properties;
    }

    /** `new Interface(node)`: sets the name, then converts the body
        members in order, failing on the first one it cannot convert. */
    static method Create(node: InterfaceDeclaration) returns (r: Result<Interface>)
      ensures r.Success? <==> NewInterface(node).Success?
      ensures r.Success? ==> fresh(r.value) && r.value.Def() == NewInterface(node).value
      ensures r.Failure? ==> r.error == NewInterface(node).error
    {
      var props := MapOrFail(ConvertMember, node.body);
      if props.Failure? {
        return Failure(props.error);
      }
      var obj := new Interface.Init(InterfaceDef(node.id.value, props.value));
      return Success(obj);
    }

    /** `decls.map((node) => new Interface(node))`: constructs one object
        per declaration, in order; the first construction that throws
        aborts the map. */
    static method ConstructAll(decls: seq<InterfaceDeclaration>) returns (r: Result<seq<Interface>>)
      ensures r.Success? <==> MapOrFail(NewInterface, decls).Success?
      ensures r.Success? ==>
        |r.value| == |decls| &&
        forall k :: 0 <= k < |decls| ==> r.value[k].Def() == MapOrFail(NewInterface, decls).value[k]
      ensures r.Success? ==> forall k :: 0 <= k < |r.value| ==> fresh(r.value[k])
      ensures r.Failure? ==> r.error == MapOrFail(NewInterface, decls).error
    {
      var interfaces: seq<Interface> := [];
      ghost var defs: seq<InterfaceDef> := [];
      var j := 0;
      while j < |decls|
        invariant 0 <= j <= |decls|
        invariant |interfaces| == |defs| == j
        invariant forall k :: 0 <= k < j ==> interfaces[k].Def() == defs[k]
        invariant forall k :: 0 <= k < j ==> fresh(interfaces[k])
        invariant forall k :: 0 <= k < j ==> NewInterface(decls[k]).Success? && NewInterface(decls[k]).value == defs[k]
      {
        var made := Create(decls[j]);
        if made.Failure? {
          assert FailsFirstAt(NewInterface, decls, j);
          ghost var all := MapOrFail(NewInterface, decls);
          ghost var k :| FailsFirstAt(NewInterface, decls, k) && all.error == NewInterface(decls[k]).error;
          FirstFailureUnique(NewInterface, decls, j, k);
          return Failure(made.error);
        }
        interfaces := interfaces + [made.value];
        defs := defs + [made.value.Def()];
        j := j + 1;
      }
      assert MapOrFail(NewInterface, decls).Success?;
      return Success(interfaces);
    }

    /** `Interface.ExtractAll(nodes)`: collects the top-level interface
        declarations in order, then constructs one `Interface` per
        declaration; the first construction that throws aborts the whole
        extraction, so no partial list is ever returned. */
    static method ExtractAll(nodes: seq<ModuleItem>) returns (r: Result<seq<Interface>>)
      ensures r.Success? <==> Extraction(nodes).Success?
      ensures r.Success? ==>
        |r.value| == |Extraction(nodes).value| &&
        forall k :: 0 <= k < |r.value| ==> r.value[k].Def() == Extraction(nodes).value[k]
      ensures r.Success? ==> forall k :: 0 <= k < |r.value| ==> fresh(r.value[k])
      ensures r.Failure? ==> r.error == Extraction(nodes).error
    {
      var decls: seq<InterfaceDeclaration> := [];
      var i := 0;
      while i < |nodes|
        invariant 0 <= i <= |nodes|
        invariant decls == Declarations(nodes[..i])
      {
        if nodes[i].InterfaceItem? {
          decls := decls + [nodes[i].decl];
        }
        DeclarationsConcat(nodes[..i], [nodes[i]]);
        assert nodes[..i + 1] == nodes[..i] + [nodes[i]];
        i := i + 1;
      }
      assert nodes[..i] == nodes;
      r := ConstructAll(decls);
      ExtractionMapsDeclarations(nodes);
    }
  }

  // ---------------------------------------------------------------------
  // The recorded scenarios
  // ---------------------------------------------------------------------

  /** `interface Foo { prop1: string; prop2: number; prop3; }` */
  lemma ExtractsFoo()
    ensures Extraction([InterfaceItem(InterfaceDeclaration(Identifier("Foo"), [
        PropertySignature(IdentifierKey(Identifier("prop1")), Some(KeywordType(String))),
        PropertySignature(IdentifierKey(Identifier("prop2")), Some(KeywordType(Number))),
        PropertySignature(IdentifierKey(Identifier("prop3")), None)]))])
      == Success([InterfaceDef("Foo", [
        InterfaceProp("prop1", Some(String)),
        InterfaceProp("prop2", Some(Number)),
        InterfaceProp("prop3", None)])])
  {
    var body := [
      PropertySignature(IdentifierKey(Identifier("prop1")), Some(KeywordType(String))),
      PropertySignature(IdentifierKey(Identifier("prop2")), Some(KeywordType(Number))),
      PropertySignature(IdentifierKey(Identifier("prop3")), None)];
    var props := [
      InterfaceProp("prop1", Some(String)),
      InterfaceProp("prop2", Some(Number)),
      InterfaceProp("prop3", None)];
    var decl := InterfaceDeclaration(Identifier("Foo"), body);
    assert forall i :: 0 <= i < 3 ==> ConvertMember(body[i]) == Success(props[i]);
    assert MapOrFail(ConvertMember, body).value == props;
    assert [InterfaceItem(decl)][1..] == [];
    assert Declarations([InterfaceItem(decl)]) == [decl];
    assert NewInterface(decl) == Success(InterfaceDef("Foo", props));
    assert MapOrFail(NewInterface, [decl]).value == [InterfaceDef("Foo", props)];
  }

  /** `interface Foo { bar(): void; }` fails on the method signature. */
  lemma RejectsMethodSignature()
    ensures Extraction([InterfaceItem(InterfaceDeclaration(Identifier("Foo"), [
        OtherMember("TsMethodSignature")]))])
      == Failure(UnexpectedMember("TsMethodSignature"))
  {
  }
}
