/**
 * The end-to-end case the repository's own test describes: a source file
 * whose eight `[Truck]` action interfaces become one import of all eight
 * names and the exported alias `TruckActions` over the same eight names.
 */
module Scenarios {
  import opened Results
  import opened Text
  import opened Syntax
  import opened ActionTypes
  import opened NgrxUtils
  import opened CaseConversion
  import opened Printer

  /** `export interface <name> extends Action { readonly type: '[Truck] <description>'; }` */
  function TruckInterface(name: string, description: string): InterfaceDeclaration {
    InterfaceDeclaration(name, [HeritageClause(ExtendsKeyword, ["Action"])],
      [Property(PropertySignature("type", false, LiteralType("'[Truck] " + description + "'")))])
  }

  /** The declarations for a list of action names and their descriptions. */
  function TruckDeclarations(names: seq<string>, descriptions: seq<string>): (r: seq<InterfaceDeclaration>)
    requires |names| == |descriptions|
    ensures |r| == |names|
  {
    seq(|names|, i requires 0 <= i < |names| => TruckInterface(names[i], descriptions[i]))
  }

  /** Each declaration as a top-level statement, in order. */
  function AsStatements(decls: seq<InterfaceDeclaration>): (r: seq<Statement>)
    ensures |r| == |decls|
  {
    seq(|decls|, i requires 0 <= i < |decls| => InterfaceStatement(decls[i]))
  }

  /** The source file: an import of `Action` followed by the interfaces, in order. */
  function TruckSource(names: seq<string>, descriptions: seq<string>): seq<Statement>
    requires |names| == |descriptions|
  {
    [OtherStatement] + AsStatements(TruckDeclarations(names, descriptions))
  }

  /** Each fixture interface yields a record with its name, its quoted literal and no properties. */
  lemma {:induction false} TruckInterfaceMetadata(name: string, description: string)
    ensures InterfaceMetadata(TruckInterface(name, description)) ==
              Ok(ActionMetadata(name, "'[Truck] " + description + "'", []))
  {
    var d := TruckInterface(name, description);
    var props := PropertySignatures(d.members);
    assert props == [PropertySignature("type", false, LiteralType("'[Truck] " + description + "'"))] by {
      assert d.members[1..] == [];
    }
    assert IsFirstTypeSignature(props, 0);
    assert RequiredNames(props) == [] by { assert props[1..] == []; }
    assert OptionalNames(props) == [] by { assert props[1..] == []; }
    InterfaceMetadataReadsFirstType(d, 0);
  }

  /** Interface statements that all extend `Action` are all selected, in order. */
  lemma {:induction false} AllSelected(decls: seq<InterfaceDeclaration>)
    requires forall i :: 0 <= i < |decls| ==> ExtendsAction(decls[i].heritageClauses)
    ensures ActionInterfaces(AsStatements(decls)) == decls
  {
    if decls != [] {
      var src := AsStatements(decls);
      assert src[0] == InterfaceStatement(decls[0]);
      assert src[1..] == AsStatements(decls[1..]);
      forall i | 0 <= i < |decls| - 1 ensures ExtendsAction(decls[1..][i].heritageClauses) {
        assert decls[1..][i] == decls[i + 1];
      }
      AllSelected(decls[1..]);
      assert decls == [decls[0]] + decls[1..];
    }
  }

  /** The fixture's leading import is skipped and every interface is selected, in order. */
  lemma {:induction false} TruckSelected(names: seq<string>, descriptions: seq<string>)
    requires |names| == |descriptions|
    ensures ActionInterfaces(TruckSource(names, descriptions)) == TruckDeclarations(names, descriptions)
  {
    var decls := TruckDeclarations(names, descriptions);
    forall i | 0 <= i < |decls| ensures ExtendsAction(decls[i].heritageClauses) {
      assert "Action" in decls[i].heritageClauses[0].typeExpressions;
    }
    AllSelected(decls);
    assert TruckSource(names, descriptions)[1..] == AsStatements(decls);
  }

  /** Each class declaration as a top-level statement, in order. */
  function AsClassStatements(decls: seq<ClassDeclaration>): (r: seq<Statement>)
    ensures |r| == |decls|
  {
    seq(|decls|, i requires 0 <= i < |decls| => ClassStatement(decls[i]))
  }

  /** Class statements that all name `Action` in a heritage clause are all selected, in order. */
  lemma {:induction false} AllClassesSelected(decls: seq<ClassDeclaration>)
    requires forall i :: 0 <= i < |decls| ==> ExtendsAction(decls[i].heritageClauses)
    ensures ActionClasses(AsClassStatements(decls)) == decls
  {
    if decls != [] {
      var src := AsClassStatements(decls);
      assert src[0] == ClassStatement(decls[0]);
      assert src[1..] == AsClassStatements(decls[1..]);
      forall i | 0 <= i < |decls| - 1 ensures ExtendsAction(decls[1..][i].heritageClauses) {
        assert decls[1..][i] == decls[i + 1];
      }
      AllClassesSelected(decls[1..]);
      assert decls == [decls[0]] + decls[1..];
    }
  }

  /**
   * A source file of an import followed by action classes: `getActionClasses`
   * returns every class in declaration order, so the class names joined with
   * ` | ` are the declared names in that order.
   */
  lemma {:induction false} FixtureClassesSelected(decls: seq<ClassDeclaration>)
    requires forall i :: 0 <= i < |decls| ==> ExtendsAction(decls[i].heritageClauses)
    ensures ActionClasses([OtherStatement] + AsClassStatements(decls)) == decls
  {
    AllClassesSelected(decls);
    assert ([OtherStatement] + AsClassStatements(decls))[1..] == AsClassStatements(decls);
  }

  /** Classification and extraction keep every interface, in source order, with its quoted literal. */
  lemma {:induction false} TruckMetadata(names: seq<string>, descriptions: seq<string>)
    requires |names| == |descriptions|
    ensures CollectMetadata(TruckSource(names, descriptions)).Ok?
    ensures var ms := CollectMetadata(TruckSource(names, descriptions)).value;
      && Names(ms) == names
      && forall i :: 0 <= i < |ms| ==> ms[i].actionType == "'[Truck] " + descriptions[i] + "'"
  {
    var decls := TruckDeclarations(names, descriptions);
    TruckSelected(names, descriptions);
    forall i | 0 <= i < |decls|
      ensures InterfaceMetadata(decls[i]) == Ok(ActionMetadata(names[i], "'[Truck] " + descriptions[i] + "'", []))
    {
      TruckInterfaceMetadata(names[i], descriptions[i]);
    }
  }

  /** `upperFirst(camelCase('Truck'))` is `Truck`. */
  lemma {:induction false} TruckPascalCase()
    ensures AsciiPascalCase("Truck") == "Truck"
  {
    CapitalizedWordKept("Truck");
  }

  /** A fixture literal `'[Truck] <description>'` parses with category `Truck`. */
  lemma {:induction false} ParseTruckLiteral(description: string)
    ensures ParseActionType("'[Truck] " + description + "'").Ok?
    ensures ParseActionType("'[Truck] " + description + "'").value.category == "Truck"
  {
    assert "'[Truck] " + description + "'" == "'" + "[" + "Truck" + "]" + (" " + description + "'");
    ParseCategoryAfterPrefix("'", "Truck", " " + description + "'");
  }

  /**
   * End to end: for any non-empty list of `[Truck]` action interfaces (the
   * repository's test uses eight, `GetTruckItems` to `RefreshTruckData`) and
   * a file name without `.ts`, one import of all the names, in order, from
   * `'./<filename>'`, and the exported alias `TruckActions` over the same
   * names in the same order.
   */
  lemma {:induction false} TruckActionsGenerated(filename: string, names: seq<string>, descriptions: seq<string>)
    requires |names| == |descriptions| > 0
    requires forall k: nat :: !OccursAt(filename, ".ts", k)
    ensures CollectMetadata(TruckSource(names, descriptions)).Ok?
    ensures CreateActionOutput(filename, CollectMetadata(TruckSource(names, descriptions)).value, AsciiPascalCase) ==
              Ok([ImportDeclaration(names, "'./" + filename + "'"), TypeAliasDeclaration(true, "TruckActions", names)])
  {
    TruckMetadata(names, descriptions);
    var ms := CollectMetadata(TruckSource(names, descriptions)).value;
    ParseTruckLiteral(descriptions[0]);
    TruckPascalCase();
    TruckOutput(filename, ms, AsciiPascalCase);
  }

  /** Records whose first `type` has category `Truck` give the alias `TruckActions`. */
  lemma {:induction false} TruckOutput(filename: string, ms: seq<ActionMetadata>, pascalCase: string -> string)
    requires |ms| > 0 && ParseActionType(ms[0].actionType).Ok?
    requires ParseActionType(ms[0].actionType).value.category == "Truck"
    requires pascalCase("Truck") == "Truck"
    requires forall k: nat :: !OccursAt(filename, ".ts", k)
    ensures CreateActionOutput(filename, ms, pascalCase) ==
              Ok([ImportDeclaration(Names(ms), "'./" + filename + "'"), TypeAliasDeclaration(true, "TruckActions", Names(ms))])
  {
    assert "Truck" + "Actions" == "TruckActions";
    var r := CreateActionOutput(filename, ms, pascalCase);
    assert r.value[0] == ImportDeclaration(Names(ms), "'./" + filename + "'");
    assert r.value[1] == TypeAliasDeclaration(true, "TruckActions", Names(ms));
  }
}
