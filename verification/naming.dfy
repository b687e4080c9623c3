/**
 * How `convert_names.py` reads the Chicago Face Database file names: a colour
 * file `<base>_color.jpg` names an identity `<base>`, whose first letters after
 * `CFD-` give its race and gender.
 */
module Naming {
  import opened Wrappers
  import opened Strings

  datatype Race = Asian | White | Latino | Black
  datatype Gender = Female | Male

  /** One race/gender cell of the pool and of the quota table. */
  datatype Cell = Cell(race: Race, gender: Gender)

  function RaceCode(r: Race): char
  {
    match r
    case Asian => 'A'
    case White => 'W'
    case Latino => 'L'
    case Black => 'B'
  }

  function GenderCode(g: Gender): char
  {
    match g
    case Female => 'F'
    case Male => 'M'
  }

  /** `race in pool`: the letter is one of the four race keys. */
  function RaceOfCode(c: char): (r: Option<Race>)
    ensures r.Some? ==> RaceCode(r.value) == c
    ensures forall x :: RaceCode(x) == c ==> r == Some(x)
  {
    if c == 'A' then Some(Asian)
    else if c == 'W' then Some(White)
    else if c == 'L' then Some(Latino)
    else if c == 'B' then Some(Black)
    else None
  }

  /** `gender in pool[race]`: the letter is one of the two gender keys. */
  function GenderOfCode(c: char): (r: Option<Gender>)
    ensures r.Some? ==> GenderCode(r.value) == c
    ensures forall x :: GenderCode(x) == c ==> r == Some(x)
  {
    if c == 'F' then Some(Female)
    else if c == 'M' then Some(Male)
    else None
  }

  function CellOfCode(x: char, y: char): (r: Option<Cell>)
    ensures r.Some? <==> x in "AWLB" && y in "FM"
    ensures r.Some? ==> RaceCode(r.value.race) == x && GenderCode(r.value.gender) == y
  {
    match (RaceOfCode(x), GenderOfCode(y))
    case (Some(race), Some(gender)) => Some(Cell(race, gender))
    case _ => None
  }

  /** The colour variant's suffix, the one file every identity is found by. */
  const ColorSuffix: string := "_color.jpg"

  /** Every source file of the face database starts with this. */
  const SourcePrefix: string := "CFD-"

  /** `f.startswith('CFD-')`: what the final clean-up deletes. */
  predicate IsSourceName(f: string)
  {
    StartsWith(f, SourcePrefix)
  }

  predicate IsAsciiUpper(c: char)
  {
    'A' <= c <= 'Z'
  }

  /**
   * `re.match(r"CFD-([A-Z])([A-Z])-.+", b)`: anchored at the start only, and
   * `.` matches any character but a newline, so one such character after the
   * second dash is all `.+` asks for.
   */
  predicate MatchesCfdPattern(b: string)
  {
    && |b| >= 8
    && StartsWith(b, SourcePrefix)
    && IsAsciiUpper(b[4]) && IsAsciiUpper(b[5])
    && b[6] == '-'
    && b[7] != '\n'
  }

  /** `filename.replace('_color.jpg', '')`: removes every occurrence, not only the suffix. */
  function ColorBase(f: string): string
  {
    RemoveAll(f, ColorSuffix)
  }

  /** The cell an identity's own name places it in, if any. */
  function CellOfBase(b: string): (r: Option<Cell>)
    ensures r.Some? ==> MatchesCfdPattern(b) && IsSourceName(b)
  {
    if MatchesCfdPattern(b) then CellOfCode(b[4], b[5]) else None
  }

  /** What the scanning loop makes of one directory entry. */
  datatype Scan =
    | NotColorFile
    | Unparsed(base: string)
    | UnknownCategory(base: string, raceCode: char, genderCode: char)
    | Classified(base: string, cell: Cell)

  /**
   * One pass of the scanning loop: only colour files are looked at; a base
   * that does not match the pattern is reported as unparsable, a parsed base
   * with a code outside the pool as an unknown category, and every other base
   * joins the cell its two letters name.
   */
  function ScanFile(f: string): Scan
  {
    if !EndsWith(f, ColorSuffix) then NotColorFile else ScanBase(ColorBase(f))
  }

  /** What the loop makes of a colour file's base name: the pattern match, then the pool-key test. */
  function ScanBase(b: string): Scan
  {
    if !MatchesCfdPattern(b) then Unparsed(b)
    else match CellOfCode(b[4], b[5])
      case None => UnknownCategory(b, b[4], b[5])
      case Some(c) => Classified(b, c)
  }

  /** A colour file whose suffix occurs only at its end is scanned by its base alone. */
  lemma ScanCleanColorFile(b: string)
    requires OnlyAtEnd(b, ColorSuffix)
    ensures ScanFile(b + ColorSuffix) == ScanBase(b)
  {
    var f := b + ColorSuffix;
    assert f[|f| - |ColorSuffix|..] == ColorSuffix;
    RemoveAllOnlyAtEnd(b, ColorSuffix);
  }

  /**
   * What the scan decides: only `_color.jpg` files are looked at; a file is
   * placed in a cell only when its base matches the pattern and its two
   * letters name that cell; a match with letters outside the pool keys is an
   * unknown category; anything else is reported as unparsable.
   */
  lemma ScanFileSpec(f: string)
    ensures var r := ScanFile(f);
      && (r.NotColorFile? <==> !EndsWith(f, ColorSuffix))
      && (r.Classified? ==>
            && EndsWith(f, ColorSuffix)
            && r.base == ColorBase(f)
            && MatchesCfdPattern(r.base)
            && r.base[4] == RaceCode(r.cell.race) && r.base[5] == GenderCode(r.cell.gender)
            && CellOfBase(r.base) == Some(r.cell))
      && (r.UnknownCategory? ==>
            && r.base == ColorBase(f)
            && MatchesCfdPattern(r.base) && CellOfBase(r.base).None?
            && (r.raceCode !in "AWLB" || r.genderCode !in "FM"))
      && (r.Unparsed? ==> r.base == ColorBase(f) && !MatchesCfdPattern(r.base))
  {
  }

  /** The names the face database uses have no underscore before the variant suffix. */
  predicate NoUnderscore(b: string)
  {
    forall k :: 0 <= k < |b| ==> b[k] != '_'
  }

  lemma NoUnderscoreSuffixOnlyAtEnd(b: string)
    requires NoUnderscore(b)
    ensures OnlyAtEnd(b, ColorSuffix)
  {
    forall i | 0 <= i < |b|
      ensures !StartsWith((b + ColorSuffix)[i..], ColorSuffix)
    {
      assert (b + ColorSuffix)[i..][0] == b[i];
    }
  }

  /**
   * The converse of the classification: a colour file whose base is `CFD-`
   * followed by a known race letter, a known gender letter, a dash and a
   * non-newline character, and which has the colour suffix only at its end,
   * is classified under exactly that base and cell.
   */
  lemma ClassifiesWellFormedName(c: Cell, rest: string)
    requires |rest| > 0 && rest[0] != '\n'
    requires OnlyAtEnd(SourcePrefix + [RaceCode(c.race), GenderCode(c.gender), '-'] + rest, ColorSuffix)
    ensures var b := SourcePrefix + [RaceCode(c.race), GenderCode(c.gender), '-'] + rest;
      ScanFile(b + ColorSuffix) == Classified(b, c)
  {
    var b := SourcePrefix + [RaceCode(c.race), GenderCode(c.gender), '-'] + rest;
    ScanCleanColorFile(b);
    assert b[..4] == SourcePrefix;
    assert b[7] == rest[0];
    assert CellOfCode(b[4], b[5]) == Some(c);
  }

  /** A name without underscores after `CFD-QF-` has none at all. */
  lemma QfNoUnderscore(rest: string)
    requires NoUnderscore(rest)
    ensures NoUnderscore("CFD-QF-" + rest)
  {
    var b := "CFD-QF-" + rest;
    forall k | 0 <= k < |b| ensures b[k] != '_' {
      if k >= 7 { assert b[k] == rest[k - 7]; }
    }
  }

  /**
   * A base whose race letter is not a pool key (such as `CFD-QF-...`) is
   * reported as an unknown category and never classified.
   */
  lemma UnknownRaceNeverClassified(rest: string)
    requires |rest| > 0 && rest[0] != '\n' && NoUnderscore(rest)
    ensures var b := "CFD-QF-" + rest;
      ScanFile(b + ColorSuffix) == UnknownCategory(b, 'Q', 'F')
  {
    var b := "CFD-QF-" + rest;
    QfNoUnderscore(rest);
    NoUnderscoreSuffixOnlyAtEnd(b);
    ScanCleanColorFile(b);
    assert b[..4] == SourcePrefix;
    assert b[4] == 'Q' && b[5] == 'F' && b[6] == '-' && b[7] == rest[0];
  }

  /**
   * Because `replace` removes every occurrence, a file that carries the colour
   * suffix twice names the same identity as the ordinary colour file.
   */
  lemma DoubledSuffixSameBase(b: string)
    requires OnlyAtEnd(b, ColorSuffix)
    ensures ColorBase(b + ColorSuffix + ColorSuffix) == b
    ensures ColorBase(b + ColorSuffix) == b
    ensures b + ColorSuffix + ColorSuffix != b + ColorSuffix
  {
    RemoveAllAfterClean(b, ColorSuffix, ColorSuffix);
    RemoveAllAfterClean("", ColorSuffix, "");
    assert "" + ColorSuffix + "" == ColorSuffix;
    assert RemoveAll("", ColorSuffix) == "";
    RemoveAllOnlyAtEnd(b, ColorSuffix);
    assert |b + ColorSuffix + ColorSuffix| != |b + ColorSuffix|;
  }
}
