/**
 * The declaration classifier and metadata extractor (src/bin/ngrx-utils.ts):
 * pick the top-level classes or interfaces whose heritage clauses name
 * `Action`, then read each one's `type` discriminant and, for interfaces,
 * split its other property signatures into required and optional ones.
 */
module NgrxUtils {
  import opened Results
  import opened Syntax
  import opened ActionTypes

  /** One property of an extracted action interface. */
  datatype ActionProperty = ActionProperty(name: string, optional: bool)

  /** `ActionMetadata`: the interface name, the `type` literal's text (quotes kept) and its properties. */
  datatype ActionMetadata = ActionMetadata(name: string, actionType: string, properties: seq<ActionProperty>)

  /** What `getTypeProperty` yields per class: its name, the whole `type` member text and that text parsed. */
  datatype ClassActionMetadata = ClassActionMetadata(name: Option<string>, actionType: string, category: ActionType)

  datatype DeclarationKind = ClassKind | InterfaceKind

  /** The errors thrown while extracting. */
  datatype ExtractError =
    | MissingTypeProperty(kind: DeclarationKind, declaration: Option<string>)  // `Could not find "type" property on ...`
    | TypeNotLiteral(interfaceName: string)  // `.literal.getText()` on a non-literal annotation: a TypeError
    | ActionTypeError(cause: ParseError)   // the class path's `parseActionType` threw

  /** Some heritage clause (`extends` or `implements` alike) has a type whose expression text is `Action`. */
  predicate ExtendsAction(clauses: seq<HeritageClause>): (r: bool)
    ensures r <==> exists k :: 0 <= k < |clauses| && "Action" in clauses[k].typeExpressions
  {
    if clauses == [] then false
    else if "Action" in clauses[0].typeExpressions then true
    else
      assert forall k :: 1 <= k < |clauses| ==> clauses[k] == clauses[1..][k - 1];
      ExtendsAction(clauses[1..])
  }

  // ---------------------------------------------------------------------------
  // Declaration classification

  /** `getActionClasses`: the top-level class declarations with an `Action` heritage type, in source order. */
  function ActionClasses(statements: seq<Statement>): (r: seq<ClassDeclaration>)
    ensures |r| <= |statements|
  {
    if statements == [] then []
    else
      var rest := ActionClasses(statements[1..]);
      match statements[0]
      case ClassStatement(c) => if ExtendsAction(c.heritageClauses) then [c] + rest else rest
      case _ => rest
  }

  /** The interface filter of `collectMetadata`: top-level interfaces with an `Action` heritage type, in source order. */
  function ActionInterfaces(statements: seq<Statement>): (r: seq<InterfaceDeclaration>)
    ensures |r| <= |statements|
  {
    if statements == [] then []
    else
      var rest := ActionInterfaces(statements[1..]);
      match statements[0]
      case InterfaceStatement(d) => if ExtendsAction(d.heritageClauses) then [d] + rest else rest
      case _ => rest
  }

  /** A class is selected exactly when it is a top-level statement with an `Action` heritage type. */
  lemma {:induction false} ActionClassesMembers(statements: seq<Statement>)
    ensures forall c :: c in ActionClasses(statements) <==> ClassStatement(c) in statements && ExtendsAction(c.heritageClauses)
  {
    if statements != [] {
      ActionClassesMembers(statements[1..]);
      assert statements == [statements[0]] + statements[1..];
    }
  }

  /** An interface is selected exactly when it is a top-level statement with an `Action` heritage type. */
  lemma {:induction false} ActionInterfacesMembers(statements: seq<Statement>)
    ensures forall d :: d in ActionInterfaces(statements) <==> InterfaceStatement(d) in statements && ExtendsAction(d.heritageClauses)
  {
    if statements != [] {
      ActionInterfacesMembers(statements[1..]);
      assert statements == [statements[0]] + statements[1..];
    }
  }

  /** Classification keeps source order: the matches of a prefix come before those of the rest. */
  lemma {:induction false} ActionClassesAppend(a: seq<Statement>, b: seq<Statement>)
    ensures ActionClasses(a + b) == ActionClasses(a) + ActionClasses(b)
  {
    if a != [] {
      assert (a + b)[1..] == a[1..] + b;
      ActionClassesAppend(a[1..], b);
    } else {
      assert a + b == b;
    }
  }

  /** Classification keeps source order: the matches of a prefix come before those of the rest. */
  lemma {:induction false} ActionInterfacesAppend(a: seq<Statement>, b: seq<Statement>)
    ensures ActionInterfaces(a + b) == ActionInterfaces(a) + ActionInterfaces(b)
  {
    if a != [] {
      assert (a + b)[1..] == a[1..] + b;
      ActionInterfacesAppend(a[1..], b);
    } else {
      assert a + b == b;
    }
  }

  /** One statement is selected by the class filter exactly when it is a class naming `Action`. */
  lemma {:induction false} ActionClassesSingle(s: Statement)
    ensures ActionClasses([s]) == if s.ClassStatement? && ExtendsAction(s.classDecl.heritageClauses) then [s.classDecl] else []
  {
    assert [s][1..] == [];
  }

  /** One statement is selected by the interface filter exactly when it is an interface naming `Action`. */
  lemma {:induction false} ActionInterfacesSingle(s: Statement)
    ensures ActionInterfaces([s]) == if s.InterfaceStatement? && ExtendsAction(s.interfaceDecl.heritageClauses) then [s.interfaceDecl] else []
  {
    assert [s][1..] == [];
  }

  // ---------------------------------------------------------------------------
  // Interface metadata

  /** `members.filter(ts.isPropertySignature)`. */
  function PropertySignatures(members: seq<InterfaceMember>): (r: seq<PropertySignature>)
    ensures forall p :: p in r <==> Property(p) in members
    ensures |r| <= |members|
  {
    if members == [] then []
    else
      var rest := PropertySignatures(members[1..]);
      match members[0]
      case Property(p) => [p] + rest
      case OtherSignature(_) => rest
  }

  /** The filter keeps member order: the signatures of a prefix come first. */
  lemma {:induction false} PropertySignaturesAppend(a: seq<InterfaceMember>, b: seq<InterfaceMember>)
    ensures PropertySignatures(a + b) == PropertySignatures(a) + PropertySignatures(b)
  {
    if a != [] {
      assert (a + b)[1..] == a[1..] + b;
      PropertySignaturesAppend(a[1..], b);
    } else {
      assert a + b == b;
    }
  }

  /** `k` is the first property signature named `type`: the one `find` returns. */
  predicate IsFirstTypeSignature(props: seq<PropertySignature>, k: int) {
    0 <= k < |props| && props[k].name == "type" && forall i :: 0 <= i < k ==> props[i].name != "type"
  }

  /** `interfaceProperties.find(member => member.name.getText() === 'type')`. */
  function FindTypeSignature(props: seq<PropertySignature>): (r: Option<PropertySignature>)
    ensures r.None? <==> forall i :: 0 <= i < |props| ==> props[i].name != "type"
    ensures r.Some? ==> exists k :: IsFirstTypeSignature(props, k) && props[k] == r.value
  {
    if props == [] then None
    else if props[0].name == "type" then
      assert IsFirstTypeSignature(props, 0);
      Some(props[0])
    else
      var r := FindTypeSignature(props[1..]);
      if r.Some? then
        var k :| IsFirstTypeSignature(props[1..], k) && props[1..][k] == r.value;
        assert IsFirstTypeSignature(props, k + 1);
        r
      else r
  }

  /** The names of the property signatures without `?` other than `type`, in declaration order. */
  function RequiredNames(props: seq<PropertySignature>): (r: seq<string>)
    ensures forall n :: n in r <==> exists p :: p in props && p.name == n && !p.optional && n != "type"
    ensures |r| <= |props|
  {
    if props == [] then []
    else
      var rest := RequiredNames(props[1..]);
      if props[0].name != "type" && !props[0].optional then [props[0].name] + rest else rest
  }

  /** The names of the property signatures with `?`, in declaration order; an optional `type` included. */
  function OptionalNames(props: seq<PropertySignature>): (r: seq<string>)
    ensures forall n :: n in r <==> exists p :: p in props && p.name == n && p.optional
    ensures |r| <= |props|
  {
    if props == [] then []
    else
      var rest := OptionalNames(props[1..]);
      if props[0].optional then [props[0].name] + rest else rest
  }

  /** Each name paired with the same optional flag, order and duplicates kept. */
  function Tagged(names: seq<string>, optional: bool): (r: seq<ActionProperty>)
    ensures |r| == |names|
    ensures forall i :: 0 <= i < |r| ==> r[i].name == names[i] && r[i].optional == optional
  {
    seq(|names|, i requires 0 <= i < |names| => ActionProperty(names[i], optional))
  }

  /** `[...required, ...optional]`: the required properties first, then the optional ones. */
  function PropertiesOf(props: seq<PropertySignature>): (r: seq<ActionProperty>)
    ensures |r| == |RequiredNames(props)| + |OptionalNames(props)|
    ensures forall i, j :: 0 <= i < j < |r| && r[i].optional ==> r[j].optional
    ensures forall i :: 0 <= i < |r| && r[i].name == "type" ==> r[i].optional
  {
    var req := RequiredNames(props);
    var r := Tagged(req, false) + Tagged(OptionalNames(props), true);
    assert forall i :: 0 <= i < |r| ==> (r[i].optional <==> i >= |req|);
    assert forall i :: 0 <= i < |req| ==> r[i].name in req;
    r
  }

  /** Within the required group, declaration order is kept: a prefix's names come first. */
  lemma {:induction false} RequiredNamesAppend(a: seq<PropertySignature>, b: seq<PropertySignature>)
    ensures RequiredNames(a + b) == RequiredNames(a) + RequiredNames(b)
  {
    if a != [] {
      assert (a + b)[1..] == a[1..] + b;
      RequiredNamesAppend(a[1..], b);
    } else {
      assert a + b == b;
    }
  }

  /** Within the optional group, declaration order is kept: a prefix's names come first. */
  lemma {:induction false} OptionalNamesAppend(a: seq<PropertySignature>, b: seq<PropertySignature>)
    ensures OptionalNames(a + b) == OptionalNames(a) + OptionalNames(b)
  {
    if a != [] {
      assert (a + b)[1..] == a[1..] + b;
      OptionalNamesAppend(a[1..], b);
    } else {
      assert a + b == b;
    }
  }

  /** The number of property signatures named `type` without `?`. */
  function RequiredTypeCount(props: seq<PropertySignature>): nat {
    if props == [] then 0
    else (if props[0].name == "type" && !props[0].optional then 1 else 0) + RequiredTypeCount(props[1..])
  }

  /** Every property signature lands in exactly one group, except the required ones named `type`. */
  lemma {:induction false} PropertiesCount(props: seq<PropertySignature>)
    ensures |PropertiesOf(props)| + RequiredTypeCount(props) == |props|
  {
    if props != [] {
      PropertiesCount(props[1..]);
    }
  }

  /** A single required `type` signature is the only one left out, so the record has one property fewer. */
  lemma {:induction false} PropertiesCountOneRequiredType(props: seq<PropertySignature>, k: int)
    requires 0 <= k < |props| && props[k].name == "type" && !props[k].optional
    requires forall i :: 0 <= i < |props| && i != k ==> props[i].name != "type"
    ensures |PropertiesOf(props)| == |props| - 1
  {
    PropertiesCount(props);
    RequiredTypeCountOne(props, k);
  }

  lemma {:induction false} RequiredTypeCountOne(props: seq<PropertySignature>, k: int)
    requires 0 <= k < |props| && props[k].name == "type" && !props[k].optional
    requires forall i :: 0 <= i < |props| && i != k ==> props[i].name != "type"
    ensures RequiredTypeCount(props) == 1
  {
    if k == 0 {
      RequiredTypeCountNone(props[1..]);
    } else {
      RequiredTypeCountOne(props[1..], k - 1);
    }
  }

  lemma {:induction false} RequiredTypeCountNone(props: seq<PropertySignature>)
    requires forall i :: 0 <= i < |props| ==> props[i].name != "type"
    ensures RequiredTypeCount(props) == 0
  {
    if props != [] {
      RequiredTypeCountNone(props[1..]);
    }
  }

  /**
   * The partition is exact: a name is a required property exactly when some
   * signature with that name has no `?` and is not `type`, and an optional
   * property exactly when some signature with that name has `?` (`type`
   * included).
   */
  lemma {:induction false} PropertiesPartition(props: seq<PropertySignature>, name: string)
    ensures ActionProperty(name, false) in PropertiesOf(props) <==>
              exists p :: p in props && p.name == name && !p.optional && name != "type"
    ensures ActionProperty(name, true) in PropertiesOf(props) <==>
              exists p :: p in props && p.name == name && p.optional
  {
    var req, opt := RequiredNames(props), OptionalNames(props);
    var r := PropertiesOf(props);
    assert r == Tagged(req, false) + Tagged(opt, true);
    assert ActionProperty(name, false) in r <==> name in req by {
      if name in req {
        var i :| 0 <= i < |req| && req[i] == name;
        assert r[i] == ActionProperty(name, false);
      }
      if ActionProperty(name, false) in r {
        var i :| 0 <= i < |r| && r[i] == ActionProperty(name, false);
        assert i < |req| && req[i] == name;
      }
    }
    assert ActionProperty(name, true) in r <==> name in opt by {
      if name in opt {
        var i :| 0 <= i < |opt| && opt[i] == name;
        assert r[|req| + i] == ActionProperty(name, true);
      }
      if ActionProperty(name, true) in r {
        var i :| 0 <= i < |r| && r[i] == ActionProperty(name, true);
        assert i >= |req| && opt[i - |req|] == name;
      }
    }
  }

  /**
   * The per-interface step of `collectMetadata`: fails when no property
   * signature is named `type`, or when the first one's annotation is not a
   * literal type; otherwise the record carries the interface's name, that
   * literal's text and the partitioned properties.
   */
  function InterfaceMetadata(decl: InterfaceDeclaration): (r: Result<ActionMetadata, ExtractError>)
    ensures r == Err(MissingTypeProperty(InterfaceKind, Some(decl.name))) <==>
              forall p :: p in PropertySignatures(decl.members) ==> p.name != "type"
    ensures r.Ok? ==> r.value.name == decl.name && r.value.properties == PropertiesOf(PropertySignatures(decl.members))
  {
    var props := PropertySignatures(decl.members);
    match FindTypeSignature(props)
    case None => Err(MissingTypeProperty(InterfaceKind, Some(decl.name)))
    case Some(t) =>
      match t.typeNode
      case LiteralType(text) => Ok(ActionMetadata(decl.name, text, PropertiesOf(props)))
      case _ => Err(TypeNotLiteral(decl.name))
  }

  /**
   * An interface record's `type` is the literal text of the first property
   * signature named `type`, quotes kept; any other annotation there fails.
   */
  lemma {:induction false} InterfaceMetadataReadsFirstType(decl: InterfaceDeclaration, k: int)
    requires IsFirstTypeSignature(PropertySignatures(decl.members), k)
    ensures var t := PropertySignatures(decl.members)[k].typeNode;
      InterfaceMetadata(decl) ==
        if t.LiteralType? then Ok(ActionMetadata(decl.name, t.literalText, PropertiesOf(PropertySignatures(decl.members))))
        else Err(TypeNotLiteral(decl.name))
  {
    var props := PropertySignatures(decl.members);
    var t := FindTypeSignature(props).value;
    var k' :| IsFirstTypeSignature(props, k') && props[k'] == t;
    FirstTypeSignatureUnique(props, k, k');
  }

  /** There is only one first `type` signature. */
  lemma {:induction false} FirstTypeSignatureUnique(props: seq<PropertySignature>, k: int, k': int)
    requires IsFirstTypeSignature(props, k) && IsFirstTypeSignature(props, k')
    ensures k == k'
  {
  }

  /** `interfaces.map(...)` where each step may throw: the first failure wins, otherwise one record per interface. */
  function InterfacesMetadata(decls: seq<InterfaceDeclaration>): (r: Result<seq<ActionMetadata>, ExtractError>)
    ensures r.Ok? <==> forall i :: 0 <= i < |decls| ==> InterfaceMetadata(decls[i]).Ok?
    ensures r.Ok? ==> |r.value| == |decls| && forall i :: 0 <= i < |decls| ==> InterfaceMetadata(decls[i]) == Ok(r.value[i])
    ensures r.Err? ==> exists k :: 0 <= k < |decls| && InterfaceMetadata(decls[k]) == Err(r.error)
                                   && forall i :: 0 <= i < k ==> InterfaceMetadata(decls[i]).Ok?
  {
    var rs := seq(|decls|, i requires 0 <= i < |decls| => InterfaceMetadata(decls[i]));
    assert |rs| == |decls| && forall i :: 0 <= i < |decls| ==> rs[i] == InterfaceMetadata(decls[i]);
    AllOk(rs)
  }

  /** `collectMetadata`: one record per selected interface, in the same order, or the first error. */
  function CollectMetadata(statements: seq<Statement>): (r: Result<seq<ActionMetadata>, ExtractError>)
    ensures var decls := ActionInterfaces(statements);
      && (r.Ok? ==> |r.value| == |decls| && forall i :: 0 <= i < |decls| ==> r.value[i].name == decls[i].name)
      && (r.Err? <==> exists d :: d in decls && InterfaceMetadata(d).Err?)
  {
    var decls := ActionInterfaces(statements);
    var r := InterfacesMetadata(decls);
    assert r.Err? ==> exists d :: d in decls && InterfaceMetadata(d).Err?;
    r
  }

  // ---------------------------------------------------------------------------
  // Class metadata

  /** `k` is the first class member whose name is `type`: the one `find` returns. */
  predicate IsFirstTypeMember(members: seq<ClassMember>, k: int) {
    0 <= k < |members| && members[k].name == Some("type") && forall i :: 0 <= i < k ==> members[i].name != Some("type")
  }

  /** `classProperties.find(member => !!member.name && member.name.getText() === 'type')`. */
  function FindTypeMember(members: seq<ClassMember>): (r: Option<ClassMember>)
    ensures r.None? <==> forall i :: 0 <= i < |members| ==> members[i].name != Some("type")
    ensures r.Some? ==> exists k :: IsFirstTypeMember(members, k) && members[k] == r.value
  {
    if members == [] then None
    else if members[0].name == Some("type") then
      assert IsFirstTypeMember(members, 0);
      Some(members[0])
    else
      var r := FindTypeMember(members[1..]);
      if r.Some? then
        var k :| IsFirstTypeMember(members[1..], k) && members[1..][k] == r.value;
        assert IsFirstTypeMember(members, k + 1);
        r
      else r
  }

  /**
   * The per-class step of `getTypeProperty`: fails when no member is named
   * `type`, or when that member's full text does not parse; otherwise the
   * record carries the class name, that text and its parse.
   */
  function ClassMetadata(decl: ClassDeclaration): (r: Result<ClassActionMetadata, ExtractError>)
    ensures r == Err(MissingTypeProperty(ClassKind, decl.name)) <==> forall i :: 0 <= i < |decl.members| ==> decl.members[i].name != Some("type")
    ensures r.Ok? ==> r.value.name == decl.name
  {
    match FindTypeMember(decl.members)
    case None => Err(MissingTypeProperty(ClassKind, decl.name))
    case Some(m) =>
      match ParseActionType(m.text)
      case Err(e) => Err(ActionTypeError(e))
      case Ok(t) => Ok(ClassActionMetadata(decl.name, m.text, t))
  }

  /**
   * A class record's `type` is the full text of the first member named
   * `type`, and its `category` field is that text parsed; a text that does
   * not parse makes the class fail with the parser's error.
   */
  lemma {:induction false} ClassMetadataParsesTypeMember(decl: ClassDeclaration, k: int)
    requires IsFirstTypeMember(decl.members, k)
    ensures ParseActionType(decl.members[k].text).Err? ==>
              ClassMetadata(decl) == Err(ActionTypeError(UnparsableActionType(decl.members[k].text)))
    ensures ParseActionType(decl.members[k].text).Ok? ==>
              ClassMetadata(decl) == Ok(ClassActionMetadata(decl.name, decl.members[k].text, ParseActionType(decl.members[k].text).value))
  {
    var m := FindTypeMember(decl.members).value;
    var k' :| IsFirstTypeMember(decl.members, k') && decl.members[k'] == m;
    FirstTypeMemberUnique(decl.members, k, k');
  }

  /** There is only one first member named `type`. */
  lemma {:induction false} FirstTypeMemberUnique(members: seq<ClassMember>, k: int, k': int)
    requires IsFirstTypeMember(members, k) && IsFirstTypeMember(members, k')
    ensures k == k'
  {
  }

  /** `classes.map(...)` where each step may throw: the first failure wins, otherwise one record per class. */
  function ClassesMetadata(decls: seq<ClassDeclaration>): (r: Result<seq<ClassActionMetadata>, ExtractError>)
    ensures r.Ok? <==> forall i :: 0 <= i < |decls| ==> ClassMetadata(decls[i]).Ok?
    ensures r.Ok? ==> |r.value| == |decls| && forall i :: 0 <= i < |decls| ==> ClassMetadata(decls[i]) == Ok(r.value[i])
    ensures r.Err? ==> exists k :: 0 <= k < |decls| && ClassMetadata(decls[k]) == Err(r.error)
                                   && forall i :: 0 <= i < k ==> ClassMetadata(decls[i]).Ok?
  {
    var rs := seq(|decls|, i requires 0 <= i < |decls| => ClassMetadata(decls[i]));
    assert |rs| == |decls| && forall i :: 0 <= i < |decls| ==> rs[i] == ClassMetadata(decls[i]);
    AllOk(rs)
  }

  /** `getTypeProperty`: one record per `Action` class, in source order, or the first error. */
  function GetTypeProperty(statements: seq<Statement>): (r: Result<seq<ClassActionMetadata>, ExtractError>)
    ensures var decls := ActionClasses(statements);
      && (r.Ok? ==> |r.value| == |decls| && forall i :: 0 <= i < |decls| ==> r.value[i].name == decls[i].name)
      && (r.Err? <==> exists d :: d in decls && ClassMetadata(d).Err?)
  {
    var decls := ActionClasses(statements);
    var r := ClassesMetadata(decls);
    assert r.Err? ==> exists d :: d in decls && ClassMetadata(d).Err?;
    r
  }
}
