/**
 * The ROI alignment script: list A (region name and volume per line) is parsed into a list,
 * list B (index id and region name per line) into a dictionary from name to id, and every
 * list-A region gets the id of its exact or hand-mapped list-B name, or a note saying why not.
 */
module AlignRois {
  import Text
  import opened Wrappers

  // ---------------------------------------------------------------------------------------
  // Lines and tokens
  // ---------------------------------------------------------------------------------------

  /** Python's `str.isspace` characters: the separators of `split()` and `strip()`. */
  predicate IsPySpace(c: char) {
    || c == '\t' || c == '\n' || c == '\U{b}' || c == '\U{c}' || c == '\r'
    || '\U{1c}' <= c <= '\U{1f}' || c == ' ' || c == '\U{85}' || c == '\U{a0}'
    || c == '\U{1680}' || '\U{2000}' <= c <= '\U{200a}' || c == '\U{2028}' || c == '\U{2029}'
    || c == '\U{202f}' || c == '\U{205f}' || c == '\U{3000}'
  }

  /** `text.strip().split('\n')`. */
  function Lines(text: string): seq<string> {
    Text.Split(Text.Trim(text, IsPySpace), '\n')
  }

  /** `line.split()`: the maximal runs of non-white-space characters. */
  function Tokens(line: string): (t: seq<string>)
    ensures forall k :: 0 <= k < |t| ==> t[k] != [] && Text.NoneIn(t[k], IsPySpace)
  {
    Text.Fields(line, IsPySpace)
  }

  // ---------------------------------------------------------------------------------------
  // List A
  // ---------------------------------------------------------------------------------------

  /** One list-A entry: the region name and its volume, both kept as text. */
  datatype Volume = Volume(name: string, val: string)

  /** The list-A entry of one line: its first two tokens, when it has two. */
  function VolumeOfLine(line: string): (r: seq<Volume>)
    ensures |r| <= 1
    ensures r != [] <==> |Tokens(line)| >= 2
  {
    var parts := Tokens(line);
    if |parts| >= 2 then [Volume(parts[0], parts[1])] else []
  }

  /** The entries of the lines, in line order, one per line with at least two tokens. */
  function VolumesOf(lines: seq<string>): (r: seq<Volume>)
    ensures |r| <= |lines|
    ensures forall k :: 0 <= k < |r| ==> r[k].name != [] && r[k].val != []
  {
    if lines == [] then []
    else VolumesOf(lines[..|lines| - 1]) + VolumeOfLine(lines[|lines| - 1])
  }

  /** The entries of two blocks of lines are those of the first followed by those of the second. */
  lemma {:induction false} VolumesOfAppend(a: seq<string>, b: seq<string>)
    ensures VolumesOf(a + b) == VolumesOf(a) + VolumesOf(b)
    decreases |b|
  {
    if b == [] {
      assert a + b == a;
    } else {
      var b', last := b[..|b| - 1], b[|b| - 1];
      assert (a + b)[..|a + b| - 1] == a + b' && (a + b)[|a + b| - 1] == last;
      calc {
        VolumesOf(a + b);
        VolumesOf(a + b') + VolumeOfLine(last);
        { VolumesOfAppend(a, b'); }
        (VolumesOf(a) + VolumesOf(b')) + VolumeOfLine(last);
        VolumesOf(a) + (VolumesOf(b') + VolumeOfLine(last));
      }
    }
  }

  /** A line with fewer than two tokens adds nothing; one with two or more adds its first two. */
  lemma VolumesOfOneLine(line: string)
    ensures VolumesOf([line]) == VolumeOfLine(line)
  {
    assert [line][..0] == [];
  }

  /** The `for` loop over the lines of list A, appending one entry per line with two tokens. */
  method ParseListA(text: string) returns (listA: seq<Volume>)
    ensures listA == VolumesOf(Lines(text))
  {
    var lines := Lines(text);
    listA := [];
    var i := 0;
    while i < |lines|
      invariant 0 <= i <= |lines|
      invariant listA == VolumesOf(lines[..i])
    {
      var parts := Tokens(lines[i]);
      if |parts| >= 2 {
        listA := listA + [Volume(parts[0], parts[1])];
      }
      assert lines[..i + 1][..i] == lines[..i];
      i := i + 1;
    }
    assert lines[..i] == lines;
  }

  // ---------------------------------------------------------------------------------------
  // List B
  // ---------------------------------------------------------------------------------------

  /** The dictionary of the lines: each line with two tokens maps its second to its first. */
  function IdsOf(lines: seq<string>): (m: map<string, string>)
    ensures forall name :: name in m ==> name != [] && m[name] != []
  {
    if lines == [] then map[]
    else
      var m := IdsOf(lines[..|lines| - 1]);
      var parts := Tokens(lines[|lines| - 1]);
      if |parts| >= 2 then m[parts[1] := parts[0]] else m
  }

  /**
   * Later lines win: the dictionary of two blocks is that of the first overridden by that of
   * the second.
   */
  lemma {:induction false} IdsOfAppend(a: seq<string>, b: seq<string>)
    ensures IdsOf(a + b) == IdsOf(a) + IdsOf(b)
    decreases |b|
  {
    if b == [] {
      assert a + b == a;
    } else {
      var b', last := b[..|b| - 1], b[|b| - 1];
      assert (a + b)[..|a + b| - 1] == a + b' && (a + b)[|a + b| - 1] == last;
      IdsOfAppend(a, b');
      var parts := Tokens(last);
      if |parts| >= 2 {
        MergeUpdate(IdsOf(a), IdsOf(b'), parts[1], parts[0]);
      }
    }
  }

  /** Updating a merge is updating its right-hand side. */
  lemma MergeUpdate<K, V>(m1: map<K, V>, m2: map<K, V>, k: K, v: V)
    ensures (m1 + m2)[k := v] == m1 + m2[k := v]
  {
  }

  /** A name listed again in a later line keeps the later id. */
  lemma LaterLineWins(a: seq<string>, line: string, b: seq<string>)
    requires |Tokens(line)| >= 2
    requires Tokens(line)[1] !in IdsOf(b)
    ensures var m := IdsOf(a + [line] + b);
            Tokens(line)[1] in m && m[Tokens(line)[1]] == Tokens(line)[0]
  {
    IdsOfAppend(a + [line], b);
    IdsOfAppend(a, [line]);
    assert [line][..0] == [];
  }

  /** The `for` loop over the lines of list B, storing `list_b[name] = id_val`. */
  method ParseListB(text: string) returns (listB: map<string, string>)
    ensures listB == IdsOf(Lines(text))
  {
    var lines := Lines(text);
    listB := map[];
    var i := 0;
    while i < |lines|
      invariant 0 <= i <= |lines|
      invariant listB == IdsOf(lines[..i])
    {
      var parts := Tokens(lines[i]);
      if |parts| >= 2 {
        var idVal := parts[0];
        var name := parts[1];
        listB := listB[name := idVal];
      }
      assert lines[..i + 1][..i] == lines[..i];
      i := i + 1;
    }
    assert lines[..i] == lines;
  }

  // ---------------------------------------------------------------------------------------
  // Alignment
  // ---------------------------------------------------------------------------------------

  /** The hand-made list-A to list-B name fixes. */
  const FUZZY_MAP: map<string, string> := map[
    "Left-L-Sg" := "Left-LSg",
    "Left-MDl" := "Left-MDI",
    "Left-VLp" := "Left-VLP",
    "Left-VM" := "Left-VMP"
  ]

  /** No hand-made fix is for a right-hemisphere name. */
  lemma FuzzyKeysAreLeft(name: string)
    requires name in FUZZY_MAP
    ensures !Text.StartsWith(name, "Right-")
  {
    assert name[..6] != "Right-" by {
      assert name[0] == 'L';
    }
  }

  /** Every id of the dictionary is a non-empty token. */
  predicate IdsNonEmpty(listB: map<string, string>) {
    forall name :: name in listB ==> listB[name] != []
  }

  /** The list-B name a name is fixed to, when it has a fix and the fixed name is listed. */
  function Fixed(name: string, listB: map<string, string>): Option<string> {
    if name in FUZZY_MAP && FUZZY_MAP[name] in listB then Some(FUZZY_MAP[name]) else None
  }

  /** `name.replace("Right-", "Left-")`. */
  function LeftEquivalent(name: string): string {
    Text.ReplaceAll(name, "Right-", "Left-")
  }

  /** How a name was matched. */
  datatype Verdict =
    | Exact(id: string)
    | Fuzzy(mapped: string, id: string)
    | RightSide(leftId: Option<string>)
    | NoMatch

  /** The id list B gives a name directly or through its fix. */
  function DirectOrFixed(name: string, listB: map<string, string>): Option<string> {
    if name in listB then Some(listB[name])
    else if Fixed(name, listB).Some? then Some(listB[Fixed(name, listB).value])
    else None
  }

  /**
   * The tiers in order: an exact match, then a fix whose target is listed, then for a `Right-`
   * name a hint from its `Left-` equivalent, otherwise none.
   */
  function VerdictOf(name: string, listB: map<string, string>): Verdict {
    if name in listB then Exact(listB[name])
    else if Fixed(name, listB).Some? then
      var mapped := Fixed(name, listB).value;
      Fuzzy(mapped, listB[mapped])
    else if Text.StartsWith(name, "Right-") then RightSide(DirectOrFixed(LeftEquivalent(name), listB))
    else NoMatch
  }

  /** One output row: the region, its volume, the list-B id (or empty) and the note. */
  datatype Row = Row(name: string, val: string, id: string, status: string)

  /** The row printed for a list-A entry with the given verdict. */
  function RowOf(item: Volume, v: Verdict): Row {
    match v
    case Exact(id) => Row(item.name, item.val, id, "Exact Match")
    case Fuzzy(mapped, id) => Row(item.name, item.val, id, "Matched to " + mapped)
    case RightSide(Some(leftId)) => Row(item.name, item.val, "", "Right Side (Left ID: " + leftId + ")")
    case RightSide(None) => Row(item.name, item.val, "", "Right Side (No Left match)")
    case NoMatch => Row(item.name, item.val, "", "No Match")
  }

  /** The row of a list-A entry. */
  function Aligned(item: Volume, listB: map<string, string>): Row {
    RowOf(item, VerdictOf(item.name, listB))
  }

  /** The main loop: one row per list-A entry, in order, each through the if/elif chain. */
  method Align(listA: seq<Volume>, listB: map<string, string>) returns (rows: seq<Row>)
    ensures |rows| == |listA|
    ensures forall i :: 0 <= i < |listA| ==> rows[i] == Aligned(listA[i], listB)
  {
    rows := [];
    var i := 0;
    while i < |listA|
      invariant 0 <= i <= |listA|
      invariant |rows| == i
      invariant forall k :: 0 <= k < i ==> rows[k] == Aligned(listA[k], listB)
    {
      var nameA := listA[i].name;
      var valA := listA[i].val;
      var idB := "";
      var status := "";
      if nameA in listB {
        idB := listB[nameA];
        status := "Exact Match";
      } else if nameA in FUZZY_MAP && FUZZY_MAP[nameA] in listB {
        var mappedName := FUZZY_MAP[nameA];
        idB := listB[mappedName];
        status := "Matched to " + mappedName;
      } else if Text.StartsWith(nameA, "Right-") {
        var leftEquivalent := Text.ReplaceAll(nameA, "Right-", "Left-");
        if leftEquivalent in listB {
          status := "Right Side (Left ID: " + listB[leftEquivalent] + ")";
        } else if leftEquivalent in FUZZY_MAP && FUZZY_MAP[leftEquivalent] in listB {
          status := "Right Side (Left ID: " + listB[FUZZY_MAP[leftEquivalent]] + ")";
        } else {
          status := "Right Side (No Left match)";
        }
      } else {
        status := "No Match";
      }
      assert Row(nameA, valA, idB, status) == Aligned(listA[i], listB);
      rows := rows + [Row(nameA, valA, idB, status)];
      i := i + 1;
    }
  }

  // ---------------------------------------------------------------------------------------
  // Properties of the alignment
  // ---------------------------------------------------------------------------------------

  /** A listed name is an exact match with its own id, whatever its fixes say. */
  lemma ExactMatchFirst(item: Volume, listB: map<string, string>)
    requires item.name in listB
    ensures Aligned(item, listB) == Row(item.name, item.val, listB[item.name], "Exact Match")
  {
  }

  /**
   * A row gets an id exactly when its name is listed or fixed to a listed name, and the id is
   * then the one list B gives that name.
   */
  lemma IdOnlyFromListOrFix(item: Volume, listB: map<string, string>)
    requires IdsNonEmpty(listB)
    ensures var row := Aligned(item, listB);
            && (row.id != "" <==> DirectOrFixed(item.name, listB).Some?)
            && (row.id != "" ==> row.id == DirectOrFixed(item.name, listB).value)
  {
  }

  /** An unlisted name with a listed fix is matched to the fixed name. */
  lemma FixedNameMatched(item: Volume, listB: map<string, string>)
    requires item.name !in listB && item.name in FUZZY_MAP && FUZZY_MAP[item.name] in listB
    ensures var mapped := FUZZY_MAP[item.name];
            Aligned(item, listB) == Row(item.name, item.val, listB[mapped], "Matched to " + mapped)
  {
  }

  /** An unlisted `Right-` name never gets an id: it is never a fix, only a hint is given. */
  lemma RightNamesGetNoId(item: Volume, listB: map<string, string>)
    requires Text.StartsWith(item.name, "Right-") && item.name !in listB
    ensures Aligned(item, listB).id == ""
    ensures Text.StartsWith(Aligned(item, listB).status, "Right Side (")
  {
    if item.name in FUZZY_MAP {
      FuzzyKeysAreLeft(item.name);
    }
    assert Fixed(item.name, listB) == None;
  }

  /** The `Left-` equivalent of a `Right-` name starts with `Left-`. */
  lemma LeftEquivalentIsLeft(name: string)
    requires Text.StartsWith(name, "Right-")
    ensures Text.StartsWith(LeftEquivalent(name), "Left-")
    ensures !Text.StartsWith(LeftEquivalent(name), "Right-")
  {
    Text.ReplaceAllPrefix(name, "Right-", "Left-");
    var r := LeftEquivalent(name);
    assert r[..5] == "Left-";
    assert r[0] != 'R';
  }

  /**
   * The hint of an unlisted `Right-` name is the id the row of its `Left-` equivalent gets:
   * `Left ID:` that id, or `No Left match` when that row gets none.
   */
  lemma RightHintIsLeftRowId(item: Volume, listB: map<string, string>)
    requires IdsNonEmpty(listB)
    requires Text.StartsWith(item.name, "Right-") && item.name !in listB
    ensures var leftRow := Aligned(Volume(LeftEquivalent(item.name), item.val), listB);
            Aligned(item, listB).status ==
              if leftRow.id == "" then "Right Side (No Left match)"
              else "Right Side (Left ID: " + leftRow.id + ")"
  {
    RightNamesGetNoId(item, listB);
    LeftEquivalentIsLeft(item.name);
    IdOnlyFromListOrFix(Volume(LeftEquivalent(item.name), item.val), listB);
  }

  /** A name that is not listed, has no listed fix and is not a `Right-` name is no match. */
  lemma OthersNoMatch(item: Volume, listB: map<string, string>)
    requires item.name !in listB && Fixed(item.name, listB).None?
    requires !Text.StartsWith(item.name, "Right-")
    ensures Aligned(item, listB) == Row(item.name, item.val, "", "No Match")
  {
  }

  /** The parsed dictionary has non-empty ids, so an empty id always means "no id". */
  lemma ParsedIdsNonEmpty(text: string)
    ensures IdsNonEmpty(IdsOf(Lines(text)))
  {
  }
}
