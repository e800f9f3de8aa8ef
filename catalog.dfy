/**
 * The package catalog as `Runner::new` builds it: program ids derived
 * from attribute paths, keys given by position, and the documents handed
 * to the search index.
 */
module Catalog {
  import opened Util
  import opened Strings
  import opened Tokenizer

  /** A package; `id` is not read from the catalog but derived from the attribute path. */
  datatype Program = Program(id: string, description: string, pname: string, version: string)

  /**
   * One member of the JSON object `nix search` prints: the attribute path
   * it is keyed by and the record deserialised from it (whose `id` is
   * empty unless the record happened to carry one).
   */
  datatype CatalogEntry = CatalogEntry(attrPath: string, program: Program)

  /** What the index is given for one program: its key and the tokens of each indexable field. */
  datatype Document = Document(key: nat, fieldTokens: seq<seq<string>>)

  /** The loaded catalog: programs by key, and every document registered with the index, in order. */
  datatype Runner = Runner(programs: seq<Program>, index: seq<Document>)

  /** The attribute path at `position` has fewer than two dots, so no id can be derived from it. */
  datatype LoadError = MalformedAttrPath(position: nat, attrPath: string)

  /** `Program::indexable_fields`: the text the index searches, in field order; `version` is not searched. */
  function IndexableFields(p: Program): (fields: seq<string>)
    ensures |fields| == 3
    ensures fields[0] == p.id && fields[1] == p.description && fields[2] == p.pname
  {
    [p.id, p.description, p.pname]
  }

  /**
   * The program id, `attrPath.splitn(3, '.').nth(2)`: the suffix after the
   * second dot, when there is one (DeriveIdIsThirdPiece relates the two
   * forms). Which suffix, and when it exists, is stated by
   * DeriveIdDefined, DeriveIdAfterSecondDot and DeriveIdOfParts.
   */
  function DeriveId(attrPath: string): (id: Option<string>)
    ensures id.Some? ==> |id.value| < |attrPath| && attrPath[|attrPath| - |id.value|..] == id.value
  {
    match IndexOf(attrPath, '.')
    case None => None
    case Some(i) =>
      match IndexOf(attrPath[i + 1..], '.')
      case None => None
      case Some(j) => Some(attrPath[i + j + 2..])
  }

  /** `splitn(3, '.')` and `nth(2)`, as the source writes it, computes DeriveId. */
  lemma DeriveIdIsThirdPiece(attrPath: string)
    ensures var pieces := SplitN(attrPath, 3, '.');
            DeriveId(attrPath) == if |pieces| > 2 then Some(pieces[2]) else None
  {
  }

  /** Counting past the first `c` of `s`. */
  lemma CountPastFirst(s: string, i: nat, c: char)
    requires i < |s| && s[i] == c && c !in s[..i]
    ensures Count(s, c) == 1 + Count(s[i + 1..], c)
  {
    assert s == s[..i] + [c] + s[i + 1..];
    CountAppend(s[..i] + [c], s[i + 1..], c);
    CountAppend(s[..i], [c], c);
    CountPositive(s[..i], c);
  }

  /** An id exists exactly when the path has at least two dots. */
  lemma DeriveIdDefined(attrPath: string)
    ensures DeriveId(attrPath).Some? <==> Count(attrPath, '.') >= 2
  {
    var first := IndexOf(attrPath, '.');
    if first.None? {
      CountPositive(attrPath, '.');
    } else {
      var i := first.value;
      var rest := attrPath[i + 1..];
      CountPastFirst(attrPath, i, '.');
      var second := IndexOf(rest, '.');
      if second.None? {
        CountPositive(rest, '.');
      } else {
        CountPastFirst(rest, second.value, '.');
      }
    }
  }

  /** The path up to and including its second dot, at `i + 1 + j`, holds two dots. */
  lemma CountThroughSecondDot(attrPath: string, i: nat, j: nat)
    requires i < |attrPath| && attrPath[i] == '.' && '.' !in attrPath[..i]
    requires j < |attrPath[i + 1..]| && attrPath[i + 1..][j] == '.' && '.' !in attrPath[i + 1..][..j]
    ensures Count(attrPath[..i + j + 2], '.') == 2
  {
    var rest := attrPath[i + 1..];
    var prefix := attrPath[..i + j + 2];
    assert prefix[..i] == attrPath[..i];
    CountPastFirst(prefix, i, '.');
    var second := prefix[i + 1..];
    assert second == rest[..j + 1];
    assert second[..j] == rest[..j];
    CountPastFirst(second, j, '.');
    assert second[j + 1..] == [];
  }

  /** The id starts right after a dot, and the path before it holds exactly two dots. */
  lemma DeriveIdAfterSecondDot(attrPath: string)
    requires DeriveId(attrPath).Some?
    ensures var start := |attrPath| - |DeriveId(attrPath).value|;
            && attrPath[start - 1] == '.'
            && Count(attrPath[..start], '.') == 2
  {
    var i := IndexOf(attrPath, '.').value;
    var j := IndexOf(attrPath[i + 1..], '.').value;
    assert DeriveId(attrPath).value == attrPath[i + j + 2..];
    assert attrPath[i + j + 1] == attrPath[i + 1..][j];
    CountThroughSecondDot(attrPath, i, j);
  }

  lemma {:induction false} IndexOfAfterPiece(a: string, rest: string, c: char)
    requires c !in a
    ensures IndexOf(a + [c] + rest, c) == Some(|a|)
  {
    var s := a + [c] + rest;
    assert forall j :: 0 <= j < |a| ==> s[j] == a[j];
    assert s[|a|] == c;
  }

  /** A path made of two dot-free segments and any remainder yields that remainder as its id. */
  lemma DeriveIdOfParts(a: string, b: string, c: string)
    requires '.' !in a && '.' !in b
    ensures DeriveId(a + "." + b + "." + c) == Some(c)
  {
    var path := a + "." + b + "." + c;
    var tail := b + "." + c;
    assert path == a + ['.'] + tail;
    IndexOfAfterPiece(a, tail, '.');
    assert path[|a| + 1..] == tail;
    IndexOfAfterPiece(b, c, '.');
    assert path[|a| + |b| + 2..] == c;
  }

  /** The catalog's own example: the system and package-set prefix is dropped. */
  lemma DeriveIdExample()
    ensures DeriveId("legacyPackages.x86_64-linux.hello") == Some("hello")
  {
    assert "legacyPackages.x86_64-linux.hello" == "legacyPackages" + "." + "x86_64-linux" + "." + "hello";
    DeriveIdOfParts("legacyPackages", "x86_64-linux", "hello");
  }

  /** Dots after the second one stay in the id. */
  lemma DeriveIdKeepsLaterDots()
    ensures DeriveId("a.b.c.d") == Some("c.d")
  {
    assert "a.b.c.d" == "a" + "." + "b" + "." + "c.d";
    DeriveIdOfParts("a", "b", "c.d");
  }

  /** The document `add_document` registers for the program at `key`. */
  function Registered(key: nat, p: Program): (d: Document)
    ensures d.key == key && |d.fieldTokens| == |IndexableFields(p)|
    ensures forall i :: 0 <= i < |d.fieldTokens| ==> d.fieldTokens[i] == Tokenize(IndexableFields(p)[i])
    ensures forall i, k :: 0 <= i < |d.fieldTokens| && 0 <= k < |d.fieldTokens[i]| ==> ' ' !in d.fieldTokens[i][k]
    ensures forall i :: 0 <= i < |d.fieldTokens| ==> Join(d.fieldTokens[i], ' ') == IndexableFields(p)[i]
  {
    Document(key, [Tokenize(p.id), Tokenize(p.description), Tokenize(p.pname)])
  }

  /** The index holds exactly one document per program, under the program's position as key. */
  predicate Consistent(r: Runner)
  {
    && |r.index| == |r.programs|
    && forall k :: 0 <= k < |r.index| ==> r.index[k] == Registered(k, r.programs[k])
  }

  lemma ConsistentAppend(r: Runner, p: Program)
    requires Consistent(r)
    ensures Consistent(Runner(r.programs + [p], r.index + [Registered(|r.programs|, p)]))
  {
  }

  /** An entry whose attribute path yields an id (by DeriveIdDefined: one with two dots). */
  predicate WellFormed(e: CatalogEntry)
  {
    DeriveId(e.attrPath).Some?
  }

  /** The program an entry loads as: its record with the id replaced by the derived one. */
  function Loaded(e: CatalogEntry): (p: Program)
    requires WellFormed(e)
    ensures Some(p.id) == DeriveId(e.attrPath)
    ensures p.description == e.program.description && p.pname == e.program.pname
    ensures p.version == e.program.version
  {
    e.program.(id := DeriveId(e.attrPath).value)
  }

  /**
   * `Runner::new`, after the catalog has been fetched and parsed: number
   * the entries in order, overwrite each program's id with the derived one,
   * register it with the index, and keep it. The source panics on the first
   * malformed attribute path; here that is the error returned.
   */
  method Load(entries: seq<CatalogEntry>) returns (r: Result<Runner, LoadError>)
    ensures r.Ok? <==> forall i :: 0 <= i < |entries| ==> WellFormed(entries[i])
    ensures r.Err? ==>
              && r.error.position < |entries|
              && r.error.attrPath == entries[r.error.position].attrPath
              && !WellFormed(entries[r.error.position])
              && forall i :: 0 <= i < r.error.position ==> WellFormed(entries[i])
    ensures r.Ok? ==>
              && Consistent(r.value)
              && |r.value.programs| == |entries|
              && forall i :: 0 <= i < |entries| ==> r.value.programs[i] == Loaded(entries[i])
  {
    var programs: seq<Program> := [];
    var index: seq<Document> := [];
    var i := 0;
    while i < |entries|
      invariant 0 <= i <= |entries|
      invariant forall j :: 0 <= j < i ==> WellFormed(entries[j])
      invariant |programs| == i
      invariant Consistent(Runner(programs, index))
      invariant forall j :: 0 <= j < i ==> programs[j] == Loaded(entries[j])
    {
      var id := DeriveId(entries[i].attrPath);
      if id.None? {
        return Err(MalformedAttrPath(i, entries[i].attrPath));
      }
      var prog := entries[i].program.(id := id.value);
      assert prog == Loaded(entries[i]);
      ConsistentAppend(Runner(programs, index), prog);
      index := index + [Registered(i, prog)];
      programs := programs + [prog];
      assert programs[i] == prog;
      i := i + 1;
    }
    r := Ok(Runner(programs, index));
  }
}
