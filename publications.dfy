/**
 * The publication list's APA author formatting: initials from given names, sentence-cased
 * titles, splitting a free-form author string into family and given name, truncating long
 * author lists, the separators between authors, recognising the site owner (Mengfei Cai) for
 * highlighting, and ordering publications by year, newest first.
 *
 * Case mapping is ASCII only; `\s` and `trim` use JavaScript's white-space set.
 */
module Publications {
  import opened Wrappers
  import Text

  // ---------------------------------------------------------------------------------------
  // Records
  // ---------------------------------------------------------------------------------------

  /** One structured author: family and given name. */
  datatype AuthorName = AuthorName(family: string, given: string)

  /**
   * A publication record as the page reads it. The year may be missing in the data the page
   * sorts, and `summary` stands for the record's `abstract` field.
   */
  datatype Publication = Publication(
    id: string,
    title: string,
    authors: seq<string>,
    authorsFull: Option<seq<AuthorName>>,
    journal: string,
    year: Option<int>,
    volume: Option<string>,
    issue: Option<string>,
    pages: Option<string>,
    doi: Option<string>,
    pdfUrl: Option<string>,
    summary: Option<string>,
    keywords: Option<seq<string>>,
    pmid: Option<string>,
    pubmedUrl: Option<string>)

  /** An author as the formatter works with it; `raw` is the original string of a comma-split name. */
  datatype Name = Name(family: string, given: string, raw: Option<string>)

  /** JavaScript's `\s`, which is also the set `trim` removes. */
  predicate IsJsSpace(c: char) {
    c == '\t' || c == '\n' || c == '\U{B}' || c == '\U{C}' || c == '\r' || c == ' '
    || c == '\U{A0}' || c == '\U{1680}' || ('\U{2000}' <= c <= '\U{200A}')
    || c == '\U{2028}' || c == '\U{2029}' || c == '\U{202F}' || c == '\U{205F}'
    || c == '\U{3000}' || c == '\U{FEFF}'
  }

  /** JavaScript's `s.trim()`. */
  function Trim(s: string): string {
    Text.Trim(s, IsJsSpace)
  }

  // ---------------------------------------------------------------------------------------
  // Initials and sentence case
  // ---------------------------------------------------------------------------------------

  /** The separators of given-name parts: `[\s-]`. */
  predicate IsNameSeparator(c: char) {
    IsJsSpace(c) || c == '-'
  }

  /** The parts of a given name: the non-empty runs between white space and hyphens. */
  function GivenParts(given: string): seq<string> {
    Text.Fields(given, IsNameSeparator)
  }

  /** One initial: the part's first character upper-cased, then a dot. */
  function Initial(p: string): string
    requires p != []
  {
    [Text.UpperChar(p[0]), '.']
  }

  /** The initial of each part, in order. */
  function InitialsOf(parts: seq<string>): (r: seq<string>)
    requires forall k :: 0 <= k < |parts| ==> parts[k] != []
    ensures |r| == |parts|
  {
    if parts == [] then [] else [Initial(parts[0])] + InitialsOf(parts[1..])
  }

  /** The initials of two or more parts, joined: the first initial, a space, then the others joined. */
  lemma JoinedInitialsCons(parts: seq<string>)
    requires |parts| > 1 && forall k :: 0 <= k < |parts| ==> parts[k] != []
    ensures Text.Join(InitialsOf(parts), " ")
            == Initial(parts[0]) + " " + Text.Join(InitialsOf(parts[1..]), " ")
  {
    assert InitialsOf(parts) == [Initial(parts[0])] + InitialsOf(parts[1..]);
    Text.JoinCons(Initial(parts[0]), InitialsOf(parts[1..]), " ");
  }

  /** Initials joined by single spaces take three characters per part, less the last space. */
  lemma {:induction false} InitialsLength(parts: seq<string>)
    requires forall k :: 0 <= k < |parts| ==> parts[k] != []
    ensures |Text.Join(InitialsOf(parts), " ")| == if parts == [] then 0 else 3 * |parts| - 1
  {
    if |parts| == 1 {
      assert InitialsOf(parts) == [Initial(parts[0])];
    } else if |parts| > 1 {
      JoinedInitialsCons(parts);
      InitialsLength(parts[1..]);
    }
  }

  /** Part `k`'s initial sits at index `3k`, its dot at `3k + 1`. */
  lemma {:induction false} InitialAt(parts: seq<string>, k: nat)
    requires k < |parts| && forall k :: 0 <= k < |parts| ==> parts[k] != []
    ensures var r := Text.Join(InitialsOf(parts), " ");
            3 * k + 1 < |r| && r[3 * k] == Text.UpperChar(parts[k][0]) && r[3 * k + 1] == '.'
  {
    InitialsLength(parts);
    if |parts| == 1 {
      assert InitialsOf(parts) == [Initial(parts[0])];
    } else {
      JoinedInitialsCons(parts);
      if k > 0 {
        InitialAt(parts[1..], k - 1);
        assert parts[1..][k - 1] == parts[k];
      }
    }
  }

  /** A space follows the dot of every part but the last. */
  lemma {:induction false} SpaceAt(parts: seq<string>, k: nat)
    requires k + 1 < |parts| && forall k :: 0 <= k < |parts| ==> parts[k] != []
    ensures var r := Text.Join(InitialsOf(parts), " ");
            3 * k + 2 < |r| && r[3 * k + 2] == ' '
  {
    InitialsLength(parts);
    JoinedInitialsCons(parts);
    if k > 0 {
      SpaceAt(parts[1..], k - 1);
    }
  }

  /** The layout of initials joined by single spaces: `X.` for part k at index 3k, a space between. */
  lemma InitialsLayout(parts: seq<string>)
    requires forall k :: 0 <= k < |parts| ==> parts[k] != []
    ensures var r := Text.Join(InitialsOf(parts), " ");
            && |r| == (if parts == [] then 0 else 3 * |parts| - 1)
            && (forall k :: 0 <= k < |parts| ==> r[3 * k] == Text.UpperChar(parts[k][0]) && r[3 * k + 1] == '.')
            && (forall k :: 0 <= k < |parts| - 1 ==> r[3 * k + 2] == ' ')
  {
    InitialsLength(parts);
    forall k | 0 <= k < |parts|
      ensures var r := Text.Join(InitialsOf(parts), " ");
              r[3 * k] == Text.UpperChar(parts[k][0]) && r[3 * k + 1] == '.'
    {
      InitialAt(parts, k);
    }
    forall k | 0 <= k < |parts| - 1
      ensures Text.Join(InitialsOf(parts), " ")[3 * k + 2] == ' '
    {
      SpaceAt(parts, k);
    }
  }

  /**
   * `toInitials`: one `X.` per non-empty part of the given name (split on runs of white space
   * and hyphens), the first character upper-cased, joined by single spaces.
   */
  function ToInitials(given: string): (r: string)
    ensures var parts := GivenParts(given);
            && |r| == (if parts == [] then 0 else 3 * |parts| - 1)
            && (forall k :: 0 <= k < |parts| ==> r[3 * k] == Text.UpperChar(parts[k][0]) && r[3 * k + 1] == '.')
            && (forall k :: 0 <= k < |parts| - 1 ==> r[3 * k + 2] == ' ')
    ensures r == "" <==> Text.AllIn(given, IsNameSeparator)
  {
    var parts := GivenParts(given);
    InitialsLayout(parts);
    Text.Join(InitialsOf(parts), " ")
  }

  /**
   * `sentenceCase`: the empty string unchanged; otherwise the same length, the first character
   * upper-cased and the rest lower-cased.
   */
  function SentenceCase(s: string): (r: string)
    ensures |r| == |s|
    ensures s != "" ==> r[0] == Text.UpperChar(Text.LowerChar(s[0]))
    ensures forall i :: 1 <= i < |s| ==> r[i] == Text.LowerChar(s[i])
  {
    if s == "" then s
    else
      var lower := Text.Lower(s);
      [Text.UpperChar(lower[0])] + lower[1..]
  }

  /** Sentence-casing twice is sentence-casing once. */
  lemma SentenceCaseIdempotent(s: string)
    ensures SentenceCase(SentenceCase(s)) == SentenceCase(s)
  {
    var r := SentenceCase(s);
    var rr := SentenceCase(r);
    if s != "" {
      Text.CaseRoundTrip(s[0]);
      forall i | 1 <= i < |s| ensures rr[i] == r[i] {
        Text.CaseRoundTrip(s[i]);
      }
    }
  }

  // ---------------------------------------------------------------------------------------
  // Recognising the site owner
  // ---------------------------------------------------------------------------------------

  /** `\w`: ASCII letters and digits, and the underscore. */
  predicate IsWordChar(c: char) {
    Text.IsAsciiLetter(c) || Text.IsDigit(c) || c == '_'
  }

  /**
   * An occurrence of `\bm\.?\s*cai\b` in `r` at index `i`: an `m` that starts a word, `dot`
   * dots (none or one), then `spaces` white-space characters, then `cai` ending a word.
   */
  ghost predicate PatternAt(r: string, i: nat, dot: nat, spaces: nat) {
    var c := i + 1 + dot + spaces;
    && dot <= 1 && c + 3 <= |r|
    && r[i] == 'm' && (i == 0 || !IsWordChar(r[i - 1]))
    && (dot == 1 ==> r[i + 1] == '.')
    && Text.AllIn(r[i + 1 + dot..c], IsJsSpace)
    && r[c..c + 3] == "cai"
    && (c + 3 == |r| || !IsWordChar(r[c + 3]))
  }

  /** Where the white space after the `m` (and its dot) ends, scanning from `j`. */
  function SpacesEnd(r: string, j: nat): (k: nat)
    requires j <= |r|
    ensures j <= k <= |r|
    ensures Text.AllIn(r[j..k], IsJsSpace)
    ensures k < |r| ==> !IsJsSpace(r[k])
  {
    var n := Text.RunLength(r[j..], c => !IsJsSpace(c));
    assert r[j..j + n] == r[j..][..n];
    j + n
  }

  /**
   * Whether the pattern matches at `i`, decided without backtracking: the dot is taken when it
   * is there, and all the white space after it, because `c` is neither a dot nor white space.
   */
  function MatchesAt(r: string, i: nat): (b: bool)
    requires i <= |r|
    ensures b <==> exists dot: nat, spaces: nat :: PatternAt(r, i, dot, spaces)
  {
    if i < |r| && r[i] == 'm' && (i == 0 || !IsWordChar(r[i - 1])) then
      var j := if i + 1 < |r| && r[i + 1] == '.' then i + 2 else i + 1;
      var k := SpacesEnd(r, j);
      var b := k + 3 <= |r| && r[k..k + 3] == "cai" && (k + 3 == |r| || !IsWordChar(r[k + 3]));
      MatchDecision(r, i, j, k, b);
      b
    else
      false
  }

  /** The greedy decision at `i` agrees with the pattern. */
  lemma MatchDecision(r: string, i: nat, j: nat, k: nat, b: bool)
    requires i < |r| && r[i] == 'm' && (i == 0 || !IsWordChar(r[i - 1]))
    requires j == if i + 1 < |r| && r[i + 1] == '.' then i + 2 else i + 1
    requires k == SpacesEnd(r, j)
    requires b == (k + 3 <= |r| && r[k..k + 3] == "cai" && (k + 3 == |r| || !IsWordChar(r[k + 3])))
    ensures b <==> exists dot: nat, spaces: nat :: PatternAt(r, i, dot, spaces)
  {
    if b {
      GreedyMatches(r, i, j, k);
    }
    if dot: nat, spaces: nat :| PatternAt(r, i, dot, spaces) {
      PatternIsFound(r, i, dot, spaces, j, k);
    }
  }

  /** Any match at `i` ends where the greedy scan stops. */
  lemma PatternIsFound(r: string, i: nat, dot: nat, spaces: nat, j: nat, k: nat)
    requires PatternAt(r, i, dot, spaces)
    requires j == if i + 1 < |r| && r[i + 1] == '.' then i + 2 else i + 1
    requires j <= |r| && k == SpacesEnd(r, j)
    ensures k == i + 1 + dot + spaces
  {
    MatchIsGreedy(r, i, dot, spaces);
  }

  /** When the greedy scan finds `cai`, the pattern matches with the dot and spaces it took. */
  lemma GreedyMatches(r: string, i: nat, j: nat, k: nat)
    requires i < |r| && r[i] == 'm' && (i == 0 || !IsWordChar(r[i - 1]))
    requires j == if i + 1 < |r| && r[i + 1] == '.' then i + 2 else i + 1
    requires k == SpacesEnd(r, j)
    requires k + 3 <= |r| && r[k..k + 3] == "cai" && (k + 3 == |r| || !IsWordChar(r[k + 3]))
    ensures PatternAt(r, i, j - i - 1, k - j)
  {
  }

  /** A match takes the dot when there is one, and all the white space after it. */
  lemma MatchIsGreedy(r: string, i: nat, dot: nat, spaces: nat)
    requires PatternAt(r, i, dot, spaces)
    ensures dot == (if i + 1 < |r| && r[i + 1] == '.' then 1 else 0)
    ensures SpacesEnd(r, i + 1 + dot) == i + 1 + dot + spaces
  {
    var j := i + 1 + dot;
    var c := j + spaces;
    var s := r[j..];
    assert r[c] == r[c..c + 3][0] == 'c';
    assert spaces > 0 ==> IsJsSpace(r[j..c][0]);
    assert s[spaces] == 'c';
    assert s[..spaces] == r[j..c];
    Text.RunLengthExact(s, c => !IsJsSpace(c), spaces);
  }

  /** The pattern occurs somewhere in `r`. */
  ghost predicate PatternIn(r: string) {
    exists k: nat, dot: nat, spaces: nat :: PatternAt(r, k, dot, spaces)
  }

  /** Whether the pattern matches anywhere from index `i` on. */
  function MatchesFrom(r: string, i: nat): (b: bool)
    requires i <= |r|
    ensures b <==> exists k :: i <= k <= |r| && MatchesAt(r, k)
    decreases |r| - i
  {
    if MatchesAt(r, i) then true
    else if i == |r| then false
    else MatchesFrom(r, i + 1)
  }

  /** `r.match(/\bm\.?\s*cai\b/)` succeeds exactly when the pattern occurs. */
  lemma MatchesFromStart(r: string)
    ensures MatchesFrom(r, 0) <==> PatternIn(r)
  {
    if PatternIn(r) {
      var k: nat, dot: nat, spaces: nat :| PatternAt(r, k, dot, spaces);
      assert k <= |r| && MatchesAt(r, k);
    }
  }

  /**
   * `isMengfeiCai`: the trimmed, lower-cased family name is `cai` and the given name starts with
   * `m` or contains `mengfei`; or the lower-cased raw string contains `mengfei cai`, or an `m`,
   * an optional dot, white space and `cai` as words.
   */
  function IsMengfeiCai(family: string, given: string, raw: Option<string>): (b: bool)
    ensures var fam, giv, r := Text.Lower(Trim(family)), Text.Lower(Trim(given)), Text.Lower(raw.GetOr(""));
            b <==> (fam == "cai" && (Text.StartsWith(giv, "m") || Text.Contains(giv, "mengfei")))
                   || Text.Contains(r, "mengfei cai")
                   || PatternIn(r)
  {
    var fam := Text.Lower(Trim(family));
    var giv := Text.Lower(Trim(given));
    var r := Text.Lower(raw.GetOr(""));
    MatchesFromStart(r);
    if fam == "cai" && (Text.StartsWith(giv, "m") || Text.Contains(giv, "mengfei")) then true
    else if Text.Contains(r, "mengfei cai") then true
    else if MatchesFrom(r, 0) then true
    else false
  }

  /** The family `Cai` with given name `Mengfei` is recognised, whatever the raw string. */
  lemma RecognisesCaiMengfei(raw: Option<string>)
    ensures IsMengfeiCai("Cai", "Mengfei", raw)
  {
    Text.TrimTrimmed("Cai", IsJsSpace);
    Text.TrimTrimmed("Mengfei", IsJsSpace);
    assert Text.Lower("Cai") == "cai";
    assert Text.Lower("Mengfei")[..1] == "m";
  }

  /** `M. Cai` in a raw author string is recognised through the pattern, with no structured name. */
  lemma RecognisesInitialDotCai()
    ensures IsMengfeiCai("", "", Some("M. Cai"))
  {
    var r := Text.Lower("M. Cai");
    assert r == "m. cai";
    assert r[3..6] == "cai";
    assert r[3..3] == [] && r[3..][..0] == [];
    assert PatternAt(r, 0, 1, 1);
  }

  /** Nobody else with no raw string: a family name other than `cai` is not recognised. */
  lemma OthersNotRecognised(family: string, given: string)
    requires Text.Lower(Trim(family)) != "cai"
    ensures !IsMengfeiCai(family, given, None)
  {
    var r := Text.Lower("");
    assert r == "";
    assert !Text.Contains(r, "mengfei cai");
  }

  // ---------------------------------------------------------------------------------------
  // Author names
  // ---------------------------------------------------------------------------------------

  /** The first part with its dots removed is one or more ASCII letters (`/^[A-Z]+$/i`). */
  predicate LooksLikeInitials(first: string) {
    var d := Text.Without(first, c => c == '.');
    d != [] && Text.AllIn(d, Text.IsAsciiLetter)
  }

  /**
   * One author string into a name. With a comma: the trimmed text before the first comma and
   * between the first and the second. Otherwise, with a space: the last space-separated word is
   * the family and the rest the given name, its dots made spaces when it is letters only apart
   * from them. Otherwise the whole string is the family.
   */
  function SplitName(a: string): (n: Name)
    ensures n.raw.Some? <==> ',' in Trim(a)
    ensures n.raw.Some? ==> n.raw.value == a
  {
    var t := Trim(a);
    if ',' in t then
      var parts := Text.Split(t, ',');
      Name(Trim(parts[0]), Trim(parts[1]), Some(a))
    else
      WordsName(t)
  }

  /** A trimmed author string without a comma: split at spaces, the last word is the family. */
  function WordsName(t: string): (n: Name)
    ensures n.raw == None
    ensures ' ' !in n.family
    ensures ' ' !in t ==> n.family == t && n.given == ""
  {
    var parts := Text.Split(t, ' ');
    if |parts| >= 2 then
      var last := parts[|parts| - 1];
      var first := Text.Join(parts[..|parts| - 1], " ");
      if LooksLikeInitials(first) then Name(last, Text.ReplaceChar(first, '.', ' '), None)
      else Name(last, first, None)
    else
      Name(t, "", None)
  }

  /** With a comma, the family is the text before the first comma and the given name the text up to the next one. */
  lemma SplitNameWithComma(a: string)
    requires ',' in Trim(a)
    ensures var t := Trim(a);
            var i := Text.IndexOf(t, ',');
            var u := t[i + 1..];
            && SplitName(a) == Name(Trim(t[..i]), Trim(u[..Text.IndexOf(u, ',')]), Some(a))
            && ',' !in t[..i] && i < |t| && t[i] == ','
  {
    Text.IndexOfFound(Trim(a), ',');
    CommaName(a);
  }

  /** `SplitNameWithComma` once the first comma has been found. */
  lemma CommaName(a: string)
    requires Text.IndexOf(Trim(a), ',') < |Trim(a)|
    ensures var t := Trim(a);
            var i := Text.IndexOf(t, ',');
            var u := t[i + 1..];
            && SplitName(a) == Name(Trim(t[..i]), Trim(u[..Text.IndexOf(u, ',')]), Some(a))
            && ',' !in t[..i] && i < |t| && t[i] == ','
  {
    var t := Trim(a);
    Text.SplitSecond(t, ',');
    var parts := Text.Split(t, ',');
    assert SplitName(a) == Name(Trim(parts[0]), Trim(parts[1]), Some(a));
  }

  /**
   * Without a comma but with a space, the family is the word after the last space and the
   * given part is what precedes that space.
   */
  lemma SplitNameWithSpace(a: string)
    requires ',' !in Trim(a) && ' ' in Trim(a)
    ensures var t, n := Trim(a), SplitName(a);
            exists first ::
              && t == first + " " + n.family && ' ' !in n.family
              && n.given == (if LooksLikeInitials(first) then Text.ReplaceChar(first, '.', ' ') else first)
              && n.raw == None
  {
    var t := Trim(a);
    assert SplitName(a) == WordsName(t);
    WordsNameShape(t);
  }

  /** The words of a string with a space: what precedes the last space and the word after it. */
  lemma WordsNameShape(t: string)
    requires ' ' in t
    ensures var n := WordsName(t);
            exists first ::
              && t == first + " " + n.family && ' ' !in n.family
              && n.given == (if LooksLikeInitials(first) then Text.ReplaceChar(first, '.', ' ') else first)
              && n.raw == None
  {
    LastWord(t);
    var parts := Text.Split(t, ' ');
    var first := Text.Join(parts[..|parts| - 1], " ");
    var n := WordsName(t);
    assert n.family == parts[|parts| - 1];
    assert t == first + " " + n.family && ' ' !in n.family;
    assert n.given == (if LooksLikeInitials(first) then Text.ReplaceChar(first, '.', ' ') else first);
  }

  /** Splitting at spaces, the last part is a word and the parts before it, joined, precede its space. */
  lemma LastWord(t: string)
    requires ' ' in t
    ensures var parts := Text.Split(t, ' ');
            && |parts| >= 2
            && t == Text.Join(parts[..|parts| - 1], " ") + " " + parts[|parts| - 1]
            && ' ' !in parts[|parts| - 1]
  {
    var parts := Text.Split(t, ' ');
    Text.SplitJoin(t, ' ');
    Text.JoinLast(parts, " ");
  }

  /** A single word is the family name, with no given name. */
  lemma SplitNameSingleWord(a: string)
    requires ',' !in Trim(a) && ' ' !in Trim(a)
    ensures SplitName(a) == Name(Trim(a), "", None)
  {
  }

  /** The authors to format: the structured list when present, even when it is empty; otherwise each string split. */
  function AuthorList(pub: Publication): (list: seq<Name>)
    ensures pub.authorsFull.Some? ==>
              |list| == |pub.authorsFull.value|
              && forall i :: 0 <= i < |list| ==>
                   list[i] == Name(pub.authorsFull.value[i].family, pub.authorsFull.value[i].given, None)
    ensures pub.authorsFull.None? ==>
              |list| == |pub.authors| && forall i :: 0 <= i < |list| ==> list[i] == SplitName(pub.authors[i])
  {
    match pub.authorsFull
    case Some(full) =>
      seq(|full|, i requires 0 <= i < |full| => Name(full[i].family, full[i].given, None))
    case None =>
      seq(|pub.authors|, i requires 0 <= i < |pub.authors| => SplitName(pub.authors[i]))
  }

  // ---------------------------------------------------------------------------------------
  // Author list formatting
  // ---------------------------------------------------------------------------------------

  /** The longest author list shown in full. */
  const MAX_AUTHORS: nat := 20

  /** The entry that stands for the authors left out of a long list. */
  const ELLIPSIS: string := "\U{2026}"

  /** One author as `Family, X. Y.`, trimmed. */
  function Cite(a: Name): string {
    Trim(a.family + ", " + ToInitials(a.given))
  }

  /** Which author entry `i` of a list of `n` authors shows: itself, or after 19 the ellipsis and then the last. */
  function ShownAuthor(n: nat, i: nat): Option<nat> {
    if n <= MAX_AUTHORS || i < 19 then Some(i)
    else if i == 19 then None
    else Some(n - 1)
  }

  /**
   * The texts of the entries: every author when there are at most 20; otherwise the first 19,
   * the ellipsis and the last author.
   */
  function EntryTexts(list: seq<Name>): (texts: seq<string>)
    ensures |list| <= MAX_AUTHORS ==>
              |texts| == |list| && forall i :: 0 <= i < |list| ==> texts[i] == Cite(list[i])
    ensures |list| > MAX_AUTHORS ==>
              && |texts| == 21
              && (forall i :: 0 <= i < 19 ==> texts[i] == Cite(list[i]))
              && texts[19] == ELLIPSIS
              && texts[20] == Cite(list[|list| - 1])
  {
    if |list| <= MAX_AUTHORS then seq(|list|, i requires 0 <= i < |list| => Cite(list[i]))
    else
      var head := seq(19, i requires 0 <= i < 19 => Cite(list[i]));
      var texts := head + [ELLIPSIS, Cite(list[|list| - 1])];
      assert forall i :: 0 <= i < 19 ==> texts[i] == head[i];
      texts
  }

  /** Entry `i` of the texts is the citation of the author `ShownAuthor` names. */
  lemma EntryTextsShow(list: seq<Name>, i: nat)
    requires i < |EntryTexts(list)| && ShownAuthor(|list|, i).Some?
    ensures ShownAuthor(|list|, i).value < |list|
    ensures EntryTexts(list)[i] == Cite(list[ShownAuthor(|list|, i).value])
  {
    if |list| > MAX_AUTHORS && 19 <= i {
      assert i == 20;
    }
  }

  /** What follows entry `i` of `count`: `", "`, then `" & "` before the last, nothing after it. */
  function Separator(i: nat, count: nat): string {
    if i + 1 < count then (if i + 2 == count then " & " else ", ") else ""
  }

  /** One rendered author: its text, the separator after it, and whether it is underlined. */
  datatype Entry = Entry(text: string, sep: string, underline: bool)

  /** The raw author string at index `j` (`pub.authors?.[j]`). */
  function RawAt(pub: Publication, j: nat): Option<string> {
    if j < |pub.authors| then Some(pub.authors[j]) else None
  }

  /** Whether entry `i` is underlined: the author it shows is the site owner; the ellipsis never is. */
  function Underlined(pub: Publication, list: seq<Name>, i: nat): bool {
    match ShownAuthor(|list|, i)
    case None => false
    case Some(j) => j < |list| && IsMengfeiCai(list[j].family, list[j].given, RawAt(pub, j))
  }

  /** The texts, each with its separator and underline flag. */
  function Entries(texts: seq<string>, pub: Publication, list: seq<Name>): (r: seq<Entry>)
    ensures |r| == |texts|
    ensures forall i :: 0 <= i < |r| ==>
              r[i] == Entry(texts[i], Separator(i, |texts|), Underlined(pub, list, i))
  {
    seq(|texts|, i requires 0 <= i < |texts| => Entry(texts[i], Separator(i, |texts|), Underlined(pub, list, i)))
  }

  /**
   * `formatAuthorsAPA` without the markup: one entry per author (at most 20), or the first 19,
   * the ellipsis and the last author; `", "` between entries, `" & "` before the last, nothing
   * after it; an entry is underlined when the author it shows is the site owner.
   */
  function FormatAuthors(pub: Publication): (r: seq<Entry>)
    ensures var list := AuthorList(pub);
            && |r| == (if |list| <= MAX_AUTHORS then |list| else 21)
            && (forall i :: 0 <= i < |r| && ShownAuthor(|list|, i).Some? ==>
                  var j := ShownAuthor(|list|, i).value;
                  j < |list| && r[i].text == Cite(list[j])
                  && (r[i].underline <==> IsMengfeiCai(list[j].family, list[j].given, RawAt(pub, j))))
            && (|list| > MAX_AUTHORS ==> r[19].text == ELLIPSIS && !r[19].underline)
    ensures |r| > 0 ==> r[|r| - 1].sep == ""
    ensures |r| > 1 ==> r[|r| - 2].sep == " & "
    ensures forall i :: 0 <= i < |r| - 2 ==> r[i].sep == ", "
  {
    var list := AuthorList(pub);
    FormatEntriesShape(pub, list);
    Entries(EntryTexts(list), pub, list)
  }

  /** The shape of the entries of any author list. */
  lemma FormatEntriesShape(pub: Publication, list: seq<Name>)
    ensures var r := Entries(EntryTexts(list), pub, list);
            && |r| == (if |list| <= MAX_AUTHORS then |list| else 21)
            && (forall i :: 0 <= i < |r| && ShownAuthor(|list|, i).Some? ==>
                  var j := ShownAuthor(|list|, i).value;
                  j < |list| && r[i].text == Cite(list[j])
                  && (r[i].underline <==> IsMengfeiCai(list[j].family, list[j].given, RawAt(pub, j))))
            && (|list| > MAX_AUTHORS ==> r[19].text == ELLIPSIS && !r[19].underline)
            && (|r| > 0 ==> r[|r| - 1].sep == "")
            && (|r| > 1 ==> r[|r| - 2].sep == " & ")
            && (forall i :: 0 <= i < |r| - 2 ==> r[i].sep == ", ")
  {
    EntriesShowAuthors(pub, list);
    EntriesSeparators(EntryTexts(list), pub, list);
    EllipsisEntry(pub, list);
  }

  /** `", "` after every entry but the last two, `" & "` after the one before the last, nothing after the last. */
  lemma EntriesSeparators(texts: seq<string>, pub: Publication, list: seq<Name>)
    ensures var r := Entries(texts, pub, list);
            && (|r| > 0 ==> r[|r| - 1].sep == "")
            && (|r| > 1 ==> r[|r| - 2].sep == " & ")
            && (forall i :: 0 <= i < |r| - 2 ==> r[i].sep == ", ")
  {
  }

  /** A long list has 21 entries, and the twentieth is the ellipsis, never underlined. */
  lemma EllipsisEntry(pub: Publication, list: seq<Name>)
    ensures var r := Entries(EntryTexts(list), pub, list);
            && |r| == (if |list| <= MAX_AUTHORS then |list| else 21)
            && (|list| > MAX_AUTHORS ==> r[19].text == ELLIPSIS && !r[19].underline)
  {
  }

  /** Each entry that shows an author carries that author's citation and underline. */
  lemma EntriesShowAuthors(pub: Publication, list: seq<Name>)
    ensures var r := Entries(EntryTexts(list), pub, list);
            forall i :: 0 <= i < |r| && ShownAuthor(|list|, i).Some? ==>
              var j := ShownAuthor(|list|, i).value;
              j < |list| && r[i].text == Cite(list[j])
              && (r[i].underline <==> IsMengfeiCai(list[j].family, list[j].given, RawAt(pub, j)))
  {
    var r := Entries(EntryTexts(list), pub, list);
    forall i | 0 <= i < |r| && ShownAuthor(|list|, i).Some?
      ensures var j := ShownAuthor(|list|, i).value;
              j < |list| && r[i].text == Cite(list[j])
              && (r[i].underline <==> IsMengfeiCai(list[j].family, list[j].given, RawAt(pub, j)))
    {
      EntryTextsShow(list, i);
    }
  }

  /** Long lists keep exactly the first 19 authors, in order, and end with the last one. */
  lemma LongListShape(pub: Publication)
    requires |AuthorList(pub)| > MAX_AUTHORS
    ensures var list, r := AuthorList(pub), FormatAuthors(pub);
            && |r| == 21
            && (forall i :: 0 <= i < 19 ==> r[i].text == Cite(list[i]))
            && r[19].text == ELLIPSIS
            && r[20].text == Cite(list[|list| - 1])
  {
    var list := AuthorList(pub);
    var texts := EntryTexts(list);
    var r := FormatAuthors(pub);
    assert r == Entries(texts, pub, list);
    forall i | 0 <= i < 21 ensures r[i].text == texts[i] {
    }
  }

  /** An empty structured list wins over the author strings: nothing is listed. */
  lemma EmptyFullListWins(pub: Publication)
    requires pub.authorsFull == Some([])
    ensures FormatAuthors(pub) == []
  {
  }

  /**
   * The underline rule of the page as written: entry `i` looks at author `min(i, n - 1)` and at
   * raw string `i`, whichever author the entry shows.
   */
  function UnderlinedAsWritten(pub: Publication, list: seq<Name>, i: nat): bool {
    if list == [] then false
    else
      var j := if i < |list| - 1 then i else |list| - 1;
      IsMengfeiCai(list[j].family, list[j].given, RawAt(pub, i))
  }

  /** The entries with the page's own underline rule. */
  function FormatAuthorsAsWritten(pub: Publication): (r: seq<Entry>)
    ensures |r| == |FormatAuthors(pub)|
    ensures forall i :: 0 <= i < |r| ==>
              r[i].text == FormatAuthors(pub)[i].text && r[i].sep == FormatAuthors(pub)[i].sep
  {
    var list := AuthorList(pub);
    var texts := EntryTexts(list);
    seq(|texts|, i requires 0 <= i < |texts| =>
      Entry(texts[i], Separator(i, |texts|), UnderlinedAsWritten(pub, list, i)))
  }

  /** 22 structured authors: the owner is the 21st, and the last is somebody else. */
  function OwnerTwentyFirst(): Publication {
    var full := seq(22, i requires 0 <= i < 22 => if i == 20 then AuthorName("Cai", "Mengfei") else AuthorName("Doe", "Jane"));
    Publication("p", "t", [], Some(full), "j", Some(2024), None, None, None, None, None, None, None, None, None)
  }

  /**
   * With the page's rule, the last entry of that list, which shows the last author, is
   * underlined for the hidden 21st author; the corrected rule does not underline it.
   */
  lemma LastEntryUnderlinedForHiddenAuthor()
    ensures var pub := OwnerTwentyFirst();
            var list := AuthorList(pub);
            && |FormatAuthors(pub)| == 21
            && FormatAuthorsAsWritten(pub)[20].text == Cite(Name("Doe", "Jane", None))
            && FormatAuthorsAsWritten(pub)[20].underline
            && !FormatAuthors(pub)[20].underline
  {
    var pub := OwnerTwentyFirst();
    var list := AuthorList(pub);
    assert |list| == 22;
    assert list[20] == Name("Cai", "Mengfei", None);
    assert list[21] == Name("Doe", "Jane", None);
    assert RawAt(pub, 20) == None && RawAt(pub, 21) == None;
    var texts := EntryTexts(list);
    assert FormatAuthors(pub) == Entries(texts, pub, list);
    RecognisesCaiMengfei(None);
    DoeNotRecognised();
    assert UnderlinedAsWritten(pub, list, 20);
    assert !Underlined(pub, list, 20);
  }

  /** `Doe, Jane` is somebody else. */
  lemma DoeNotRecognised()
    ensures !IsMengfeiCai("Doe", "Jane", None)
  {
    Text.TrimTrimmed("Doe", IsJsSpace);
    assert Text.Lower("Doe")[0] == 'd';
    OthersNotRecognised("Doe", "Jane");
  }

  // ---------------------------------------------------------------------------------------
  // Ordering
  // ---------------------------------------------------------------------------------------

  /** The sort key: the year, a missing one counting as 0 (`p.year || 0`). */
  function YearKey(p: Publication): int {
    p.year.GetOr(0)
  }

  /** Newest first: no publication precedes one with a later year. */
  predicate NewestFirst(s: seq<Publication>) {
    forall i, j :: 0 <= i < j < |s| ==> YearKey(s[i]) >= YearKey(s[j])
  }

  /** `p` placed in a newest-first list before the first publication that is not newer than it. */
  function InsertByYear(p: Publication, s: seq<Publication>): (r: seq<Publication>)
    requires NewestFirst(s)
    ensures NewestFirst(r)
    ensures multiset(r) == multiset(s) + multiset{p}
    ensures r[0] == p || (s != [] && r[0] == s[0])
  {
    if s == [] then [p]
    else if YearKey(s[0]) > YearKey(p) then
      NewestFirstTail(s);
      var rest := InsertByYear(p, s[1..]);
      InsertBehindHead(p, s, rest);
      [s[0]] + rest
    else
      NewestFirstCons(p, s);
      [p] + s
  }

  /** The tail of a newest-first list is newest first. */
  lemma NewestFirstTail(s: seq<Publication>)
    requires NewestFirst(s) && s != []
    ensures NewestFirst(s[1..])
  {
    forall i, j | 0 <= i < j < |s| - 1 ensures YearKey(s[1..][i]) >= YearKey(s[1..][j]) {
      assert s[1..][i] == s[i + 1] && s[1..][j] == s[j + 1];
    }
  }

  /** A head newer than `p`, kept in front of `p` inserted into the tail. */
  lemma InsertBehindHead(p: Publication, s: seq<Publication>, rest: seq<Publication>)
    requires NewestFirst(s) && s != [] && YearKey(s[0]) > YearKey(p)
    requires NewestFirst(rest) && multiset(rest) == multiset(s[1..]) + multiset{p}
    requires rest[0] == p || (s[1..] != [] && rest[0] == s[1..][0])
    ensures NewestFirst([s[0]] + rest)
    ensures multiset([s[0]] + rest) == multiset(s) + multiset{p}
  {
    assert YearKey(s[0]) >= YearKey(rest[0]) by {
      if rest[0] != p {
        assert rest[0] == s[1];
      }
    }
    NewestFirstCons(s[0], rest);
    assert s == [s[0]] + s[1..];
  }

  /** A publication no older than the head of a newest-first list can go in front of it. */
  lemma NewestFirstCons(p: Publication, s: seq<Publication>)
    requires NewestFirst(s)
    requires s != [] ==> YearKey(p) >= YearKey(s[0])
    ensures NewestFirst([p] + s)
  {
    var r := [p] + s;
    forall i, j | 0 <= i < j < |r| ensures YearKey(r[i]) >= YearKey(r[j]) {
      if i == 0 {
        assert r[j] == s[j - 1];
        assert YearKey(s[0]) >= YearKey(s[j - 1]);
      } else {
        assert r[i] == s[i - 1] && r[j] == s[j - 1];
      }
    }
  }

  /**
   * The page's `sort` by `(b.year || 0) - (a.year || 0)` on a copy of the list: newest first,
   * the same publications, and (as `Array.prototype.sort` is stable) equal years keep their order.
   */
  function SortByYear(pubs: seq<Publication>): (r: seq<Publication>)
    ensures NewestFirst(r)
    ensures multiset(r) == multiset(pubs)
  {
    if pubs == [] then []
    else
      assert pubs == [pubs[0]] + pubs[1..];
      InsertByYear(pubs[0], SortByYear(pubs[1..]))
  }

  /** The publications of year `y` (by the sort key), in order. */
  function OfYear(s: seq<Publication>, y: int): seq<Publication> {
    if s == [] then [] else (if YearKey(s[0]) == y then [s[0]] else []) + OfYear(s[1..], y)
  }

  /** The publications of one year in a list with a new head: the head, if of that year, then the rest. */
  lemma OfYearCons(p: Publication, s: seq<Publication>, y: int)
    ensures OfYear([p] + s, y) == (if YearKey(p) == y then [p] else []) + OfYear(s, y)
  {
    assert ([p] + s)[0] == p && ([p] + s)[1..] == s;
  }

  /** Two prefixes, one of them empty, can be swapped. */
  lemma SwapEmpty<T>(a: seq<T>, b: seq<T>, c: seq<T>)
    requires a == [] || b == []
    ensures a + (b + c) == b + (a + c)
  {
    if a == [] {
      assert a + (b + c) == b + c;
    } else {
      assert b + (a + c) == a + c;
    }
  }

  /** Inserting puts the new publication before the others of its year, which keep their order. */
  lemma {:induction false} InsertKeepsYearOrder(p: Publication, s: seq<Publication>, y: int)
    requires NewestFirst(s)
    ensures OfYear(InsertByYear(p, s), y) == (if YearKey(p) == y then [p] else []) + OfYear(s, y)
  {
    var pre := if YearKey(p) == y then [p] else [];
    if s == [] {
      OfYearCons(p, [], y);
    } else if YearKey(s[0]) > YearKey(p) {
      var head := if YearKey(s[0]) == y then [s[0]] else [];
      NewestFirstTail(s);
      var rest := InsertByYear(p, s[1..]);
      InsertKeepsYearOrder(p, s[1..], y);
      calc {
        OfYear(InsertByYear(p, s), y);
        OfYear([s[0]] + rest, y);
        { OfYearCons(s[0], rest, y); }
        head + OfYear(rest, y);
        head + (pre + OfYear(s[1..], y));
        { SwapEmpty(head, pre, OfYear(s[1..], y)); }
        pre + (head + OfYear(s[1..], y));
        { OfYearCons(s[0], s[1..], y); assert [s[0]] + s[1..] == s; }
        pre + OfYear(s, y);
      }
    } else {
      assert InsertByYear(p, s) == [p] + s;
      OfYearCons(p, s, y);
    }
  }

  /** Stability: within one year, the sorted list keeps the original order. */
  lemma {:induction false} SortKeepsYearOrder(pubs: seq<Publication>, y: int)
    ensures OfYear(SortByYear(pubs), y) == OfYear(pubs, y)
  {
    if pubs != [] {
      SortKeepsYearOrder(pubs[1..], y);
      InsertKeepsYearOrder(pubs[0], SortByYear(pubs[1..]), y);
    }
  }
}
