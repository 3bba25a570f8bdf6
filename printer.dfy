/**
 * The code synthesizer (`createActionOutput`, src/bin/printer.ts): from the
 * extracted records it builds one import declaration naming every record and
 * one exported type alias whose union lists every record, named after the
 * first record's category.
 */
module Printer {
  import opened Results
  import opened Text
  import opened ActionTypes
  import opened NgrxUtils

  /** The two kinds of statement the synthesizer creates. */
  datatype GeneratedStatement =
    | ImportDeclaration(namedImports: seq<string>, moduleSpecifier: string)
    | TypeAliasDeclaration(exported: bool, aliasName: string, unionMembers: seq<string>)

  /** What `createActionOutput` throws. */
  datatype OutputError =
    | EmptyMetadata                      // `metadata[0].type` on an empty list: a TypeError
    | FirstTypeUnparsable(cause: ParseError)

  /** `metadata.map(m => m.name)`. */
  function Names(metadata: seq<ActionMetadata>): (r: seq<string>)
    ensures |r| == |metadata| && forall i :: 0 <= i < |r| ==> r[i] == metadata[i].name
  {
    seq(|metadata|, i requires 0 <= i < |metadata| => metadata[i].name)
  }

  /**
   * The module specifier text `'./<filename>'` with the first `.ts` in the
   * file name cut out, wherever it stands: quotes included, since it is built
   * as an identifier.
   */
  function ModuleSpecifier(filename: string): (r: string)
    ensures |r| >= 4 && r[..3] == "'./" && r[|r| - 1] == '\''
    ensures (forall k: nat :: !OccursAt(filename, ".ts", k)) ==> r == "'./" + filename + "'"
    ensures forall k: nat :: IsFirstOccurrence(filename, ".ts", k) ==>
              r == "'./" + filename[..k] + filename[k + 3..] + "'"
  {
    var stem := RemoveFirst(filename, ".ts");
    var r := "'./" + stem + "'";
    assert r[..3] == "'./";
    r
  }

  /** `createActionOutput(filename, metadata)`, with lodash's `upperFirst(camelCase(.))` passed in as `pascalCase`. */
  function CreateActionOutput(filename: string, metadata: seq<ActionMetadata>, pascalCase: string -> string)
    : (r: Result<seq<GeneratedStatement>, OutputError>)
    ensures r.Err? <==> |metadata| == 0 || ParseActionType(metadata[0].actionType).Err?
    ensures |metadata| == 0 ==> r == Err(EmptyMetadata)
    ensures |metadata| > 0 && r.Err? ==> r.error == FirstTypeUnparsable(UnparsableActionType(metadata[0].actionType))
    ensures r.Ok? ==> |r.value| == 2 && r.value[0].ImportDeclaration? && r.value[1].TypeAliasDeclaration?
    ensures r.Ok? ==> r.value[1].exported && r.value[0].moduleSpecifier == ModuleSpecifier(filename)
    ensures r.Ok? ==> |r.value[0].namedImports| == |metadata| && r.value[1].unionMembers == r.value[0].namedImports
    ensures r.Ok? ==> forall i :: 0 <= i < |metadata| ==> r.value[0].namedImports[i] == metadata[i].name
    ensures r.Ok? ==> r.value[1].aliasName == pascalCase(ParseActionType(metadata[0].actionType).value.category) + "Actions"
  {
    var importDeclaration := ImportDeclaration(Names(metadata), ModuleSpecifier(filename));
    if |metadata| == 0 then Err(EmptyMetadata)
    else
      match ParseActionType(metadata[0].actionType)
      case Err(e) => Err(FirstTypeUnparsable(e))
      case Ok(t) =>
        Ok([importDeclaration, TypeAliasDeclaration(true, pascalCase(t.category) + "Actions", Names(metadata))])
  }

  /**
   * Only the first record's `type` is parsed: records after it, whatever
   * their `type`, change neither whether synthesis succeeds nor the alias
   * name.
   */
  lemma {:induction false} AliasFromFirstRecordOnly(filename: string, first: ActionMetadata,
                                                    xs: seq<ActionMetadata>, ys: seq<ActionMetadata>,
                                                    pascalCase: string -> string)
    ensures CreateActionOutput(filename, [first] + xs, pascalCase).Ok? == CreateActionOutput(filename, [first] + ys, pascalCase).Ok?
    ensures CreateActionOutput(filename, [first] + xs, pascalCase).Ok? ==>
              CreateActionOutput(filename, [first] + xs, pascalCase).value[1].aliasName ==
              CreateActionOutput(filename, [first] + ys, pascalCase).value[1].aliasName
  {
    assert ([first] + xs)[0] == first && ([first] + ys)[0] == first;
  }

  /** Import names and union members follow the records: concatenated input, concatenated lists, no deduplication. */
  lemma {:induction false} NamesAppend(a: seq<ActionMetadata>, b: seq<ActionMetadata>)
    ensures Names(a + b) == Names(a) + Names(b)
  {
  }

  /**
   * The first `.ts` is cut out and everything after it is kept, later `.ts`
   * included: for a name `base + ".ts" + rest` where `base` holds no `.ts`,
   * the specifier is `'./` + base + rest + `'`. With `rest` empty the
   * extension is dropped; `a.tsx.ts` gives `'./ax.ts'`.
   */
  lemma {:induction false} ModuleSpecifierCutsFirstTs(base: string, rest: string)
    requires forall k: nat :: !OccursAt(base, ".ts", k)
    ensures ModuleSpecifier(base + ".ts" + rest) == "'./" + base + rest + "'"
  {
    var f := base + ".ts" + rest;
    var n := |base|;
    assert f[n] == '.' && f[n..n + 3] == ".ts";
    forall k: nat | k < n ensures !OccursAt(f, ".ts", k) {
      if k + 3 <= n {
        assert f[k..k + 3] == base[k..k + 3];
        assert !OccursAt(base, ".ts", k);
      } else if k + 1 == n {
        assert f[k..k + 3][1] == f[n];
      } else {
        assert f[k..k + 3][2] == f[n];
      }
    }
    assert IsFirstOccurrence(f, ".ts", n);
    assert f[..n] == base && f[n + 3..] == rest;
  }
}
