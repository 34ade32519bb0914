/**
 * What the coordinate pass does with the mapview lines: per record, the
 * filters on feature type and assembly, the EntrezGene id taken from
 * feature_id, the lookup in the MGI reference map, and the routing to the
 * chromosome mismatch report, the nomenclature mismatch report and the
 * coordinate file; over a whole input, the fold of that decision over the
 * lines in order, stopping at the first line too short to read.
 */
module Routing {
  import opened Strings
  import opened Records

  const GENE: string := "GENE"
  const PRIMARY_ASSEMBLY: string := "GRCh37.p2-Primary Assembly"
  const GENE_ID_TAG: string := "GeneID:"

  /** The MGI reference data, keyed by EntrezGene id. */
  type Lookup = map<string, MarkerRow>

  /** The three output files, as the rows written to each so far. */
  datatype Sinks = Sinks(
    chrMismatch: seq<ChrMismatchRow>,
    nomenMismatch: seq<NomenMismatchRow>,
    coord: seq<CoordRow>)

  const NoRows: Sinks := Sinks([], [], [])

  /** Rows of `more` written after the rows of `s`, file by file. */
  function Append(s: Sinks, more: Sinks): Sinks
  {
    Sinks(s.chrMismatch + more.chrMismatch, s.nomenMismatch + more.nomenMismatch, s.coord + more.coord)
  }

  /**
   * The EntrezGene id: feature_id with every "GeneID:" removed. It is never
   * longer than feature_id, and a feature_id without the tag is the id itself.
   */
  function NormaliseId(featureId: string): (id: string)
    ensures |id| <= |featureId|
    ensures !Contains(featureId, GENE_ID_TAG) ==> id == featureId
  {
    ReplaceEmptyShrinks(featureId, GENE_ID_TAG);
    Replace(featureId, GENE_ID_TAG, "")
  }

  ghost predicate AllDigits(s: string)
  {
    forall i :: 0 <= i < |s| ==> '0' <= s[i] <= '9'
  }

  /** The usual form of feature_id, "GeneID:" and the digits of the id, gives the digits. */
  lemma NormaliseTaggedDigits(digits: string)
    requires AllDigits(digits)
    ensures NormaliseId(GENE_ID_TAG + digits) == digits
  {
    ReplaceFront(GENE_ID_TAG, "", digits);
    assert !Contains(digits, GENE_ID_TAG) by {
      forall i ensures !OccursAt(digits, GENE_ID_TAG, i) {
        if 0 <= i && i + |GENE_ID_TAG| <= |digits| {
          assert digits[i..i + |GENE_ID_TAG|][0] == digits[i] != 'G';
        }
      }
    }
  }

  /** For instance "GeneID:1017" is looked up as "1017". */
  lemma NormaliseExample()
    ensures NormaliseId("GeneID:1017") == "1017"
  {
    NormaliseTaggedDigits("1017");
  }

  /** The tag is removed wherever it stands, not only in front: "12GeneID:34" gives "1234". */
  lemma NormaliseInnerTag(prefix: string, digits: string)
    requires AllDigits(prefix) && AllDigits(digits)
    ensures NormaliseId(prefix + GENE_ID_TAG + digits) == prefix + digits
  {
    assert prefix + GENE_ID_TAG + digits == prefix + (GENE_ID_TAG + digits);
    ReplaceKeepsPrefix(prefix, GENE_ID_TAG + digits, GENE_ID_TAG, "");
    NormaliseTaggedDigits(digits);
  }

  ghost predicate IsGene(f: Feature)
  {
    Contains(f.featureType, GENE)
  }

  ghost predicate OnPrimaryAssembly(f: Feature)
  {
    Contains(f.groupLabel, PRIMARY_ASSEMBLY)
  }

  /** The record passes both filters and its id is known to MGI. */
  ghost predicate Known(lookup: Lookup, f: Feature)
  {
    IsGene(f) && OnPrimaryAssembly(f) && NormaliseId(f.featureId) in lookup
  }

  /** A known record whose chromosome disagrees with MGI's. */
  ghost predicate ChromosomeDiffers(lookup: Lookup, f: Feature)
  {
    Known(lookup, f) && lookup[NormaliseId(f.featureId)].chromosome != f.chromosome
  }

  /** A known record on MGI's chromosome: its coordinates are loaded. */
  ghost predicate Accepted(lookup: Lookup, f: Feature)
  {
    Known(lookup, f) && lookup[NormaliseId(f.featureId)].chromosome == f.chromosome
  }

  /** An accepted record whose feature_name is not MGI's symbol. */
  ghost predicate SymbolDiffers(lookup: Lookup, f: Feature)
  {
    Accepted(lookup, f) && lookup[NormaliseId(f.featureId)].symbol != f.featureName
  }

  /** The coordinate row of a record: its id with tokens 1 to 4 as they were read. */
  function CoordOf(f: Feature): CoordRow
  {
    CoordRow(NormaliseId(f.featureId), f.chromosome, f.chrStart, f.chrStop, f.chrOrient)
  }

  function ChrMismatchOf(lookup: Lookup, f: Feature): ChrMismatchRow
    requires NormaliseId(f.featureId) in lookup
  {
    var id := NormaliseId(f.featureId);
    ChrMismatchRow(id, f.chromosome, lookup[id].chromosome)
  }

  function NomenMismatchOf(lookup: Lookup, f: Feature): NomenMismatchRow
    requires NormaliseId(f.featureId) in lookup
  {
    var id := NormaliseId(f.featureId);
    NomenMismatchRow(id, f.featureName, lookup[id].symbol)
  }

  /**
   * The rows one readable record adds to the three files, decided by the
   * same chain of tests the loader applies: feature type, assembly label,
   * id lookup, chromosome, symbol.
   */
  function Contribution(lookup: Lookup, f: Feature): (s: Sinks)
    ensures !IsGene(f) ==> s == NoRows
    ensures IsGene(f) && !OnPrimaryAssembly(f) ==> s == NoRows
    ensures IsGene(f) && OnPrimaryAssembly(f) && NormaliseId(f.featureId) !in lookup ==> s == NoRows
    ensures ChromosomeDiffers(lookup, f) ==> s == Sinks([ChrMismatchOf(lookup, f)], [], [])
    ensures Accepted(lookup, f) ==> s.chrMismatch == [] && s.coord == [CoordOf(f)]
    ensures Accepted(lookup, f) ==>
      s.nomenMismatch == if SymbolDiffers(lookup, f) then [NomenMismatchOf(lookup, f)] else []
  {
    FindNegativeIff(f.featureType, GENE);
    FindNegativeIff(f.groupLabel, PRIMARY_ASSEMBLY);
    if Find(f.featureType, GENE) < 0 then NoRows
    else if Find(f.groupLabel, PRIMARY_ASSEMBLY) < 0 then NoRows
    else
      var id := NormaliseId(f.featureId);
      if id !in lookup then NoRows
      else
        var mgiChromosome := lookup[id].chromosome;
        if mgiChromosome != f.chromosome then
          Sinks([ChrMismatchRow(id, f.chromosome, mgiChromosome)], [], [])
        else
          var mgiSymbol := lookup[id].symbol;
          var nomen := if mgiSymbol != f.featureName then [NomenMismatchRow(id, f.featureName, mgiSymbol)] else [];
          Sinks([], nomen, [CoordRow(id, f.chromosome, f.chrStart, f.chrStop, f.chrOrient)])
  }

  /** Each row a record contributes is justified by the tests of its file. */
  lemma ContributionJustified(lookup: Lookup, f: Feature)
    ensures forall c :: c in Contribution(lookup, f).coord ==> Accepted(lookup, f) && c == CoordOf(f)
    ensures forall m :: m in Contribution(lookup, f).chrMismatch ==>
      ChromosomeDiffers(lookup, f) && m == ChrMismatchOf(lookup, f)
    ensures forall n :: n in Contribution(lookup, f).nomenMismatch ==>
      SymbolDiffers(lookup, f) && n == NomenMismatchOf(lookup, f)
  {
  }

  /** The rows written so far, and the index of the line that stopped the pass, if any. */
  datatype RunState = RunState(sinks: Sinks, failedAt: Option<nat>)

  /**
   * The coordinate pass over `lines`, one line after the other. A line with
   * fewer than 13 tokens raises an error before anything is written for it,
   * and no later line is read.
   */
  function Run(lookup: Lookup, lines: seq<string>): (r: RunState)
    ensures |r.sinks.chrMismatch| + |r.sinks.coord| <= |lines|
    ensures |r.sinks.nomenMismatch| <= |r.sinks.coord|
    ensures r.failedAt.Some? ==> r.failedAt.value < |lines| && Parse(lines[r.failedAt.value]).None?
    decreases |lines|
  {
    if |lines| == 0 then
      RunState(NoRows, None)
    else
      var last := |lines| - 1;
      var prev := Run(lookup, lines[..last]);
      if prev.failedAt.Some? then
        assert lines[..last][prev.failedAt.value] == lines[prev.failedAt.value];
        prev
      else
        match Parse(lines[last])
        case None => RunState(prev.sinks, Some(last))
        case Some(f) => RunState(Append(prev.sinks, Contribution(lookup, f)), None)
  }

  /** One more line: what `Run` does with the last line of a longer input. */
  lemma RunSnoc(lookup: Lookup, lines: seq<string>, i: nat)
    requires i < |lines|
    ensures var prev := Run(lookup, lines[..i]);
      Run(lookup, lines[..i + 1]) ==
        if prev.failedAt.Some? then prev
        else match Parse(lines[i])
          case None => RunState(prev.sinks, Some(i))
          case Some(f) => RunState(Append(prev.sinks, Contribution(lookup, f)), None)
  {
    assert lines[..i + 1][..i] == lines[..i];
    assert lines[..i + 1][i] == lines[i];
  }

  /** One more line, as far as where the pass stops is concerned. */
  lemma RunFailedAtStep(lookup: Lookup, lines: seq<string>, i: nat)
    requires i < |lines|
    ensures Run(lookup, lines[..i + 1]).failedAt ==
      if Run(lookup, lines[..i]).failedAt.Some? then Run(lookup, lines[..i]).failedAt
      else if Parse(lines[i]).None? then Some(i)
      else None
  {
    RunSnoc(lookup, lines, i);
  }

  /** A readable line after a pass that has not stopped appends its record's rows. */
  lemma RunStep(lookup: Lookup, lines: seq<string>, i: nat)
    requires i < |lines| && Run(lookup, lines[..i]).failedAt.None? && Parse(lines[i]).Some?
    ensures Run(lookup, lines[..i + 1])
         == RunState(Append(Run(lookup, lines[..i]).sinks, Contribution(lookup, Parse(lines[i]).value)), None)
  {
    RunSnoc(lookup, lines, i);
  }

  /** Once a line has stopped the pass, further lines change nothing. */
  lemma {:induction false} RunStaysFailed(lookup: Lookup, lines: seq<string>, k: nat)
    requires k <= |lines|
    requires Run(lookup, lines[..k]).failedAt.Some?
    ensures Run(lookup, lines) == Run(lookup, lines[..k])
    decreases |lines|
  {
    if k < |lines| {
      var front := lines[..|lines| - 1];
      assert front[..k] == lines[..k];
      RunStaysFailed(lookup, front, k);
    } else {
      assert lines[..k] == lines;
    }
  }

  /** An unreadable line stops the pass, there or at an earlier line. */
  lemma UnreadableLineStops(lookup: Lookup, lines: seq<string>, i: nat)
    requires i < |lines|
    ensures Parse(lines[i]).None? ==>
      Run(lookup, lines).failedAt.Some? && Run(lookup, lines).failedAt.value <= i
  {
    if Parse(lines[i]).None? {
      RunFailedAtStep(lookup, lines, i);
      RunStaysFailed(lookup, lines, i + 1);
    }
  }

  /** The pass completes exactly when every line can be read. */
  lemma RunCompletesIffReadable(lookup: Lookup, lines: seq<string>)
    ensures Run(lookup, lines).failedAt.None? <==> forall i :: 0 <= i < |lines| ==> Parse(lines[i]).Some?
  {
    forall i | 0 <= i < |lines| ensures Run(lookup, lines).failedAt.None? ==> Parse(lines[i]).Some? {
      UnreadableLineStops(lookup, lines, i);
    }
  }

  /** When the pass stops, it stops at the first line too short to read. */
  lemma RunStopsAtFirstMalformed(lookup: Lookup, lines: seq<string>)
    ensures Run(lookup, lines).failedAt.Some? ==>
      forall i :: 0 <= i < Run(lookup, lines).failedAt.value ==> Parse(lines[i]).Some?
  {
    var stop := Run(lookup, lines).failedAt;
    forall i | stop.Some? && 0 <= i < stop.value ensures Parse(lines[i]).Some? {
      UnreadableLineStops(lookup, lines, i);
    }
  }

  /** `later` holds the rows of `early` as the first rows of each file. */
  ghost predicate Extends(later: Sinks, early: Sinks)
  {
    early.chrMismatch <= later.chrMismatch && early.nomenMismatch <= later.nomenMismatch &&
    early.coord <= later.coord
  }

  lemma ExtendsTransitive(a: Sinks, b: Sinks, c: Sinks)
    requires Extends(b, a) && Extends(c, b)
    ensures Extends(c, a)
  {
    PrefixTransitive(a.chrMismatch, b.chrMismatch, c.chrMismatch);
    PrefixTransitive(a.nomenMismatch, b.nomenMismatch, c.nomenMismatch);
    PrefixTransitive(a.coord, b.coord, c.coord);
  }

  lemma PrefixTransitive<T>(a: seq<T>, b: seq<T>, c: seq<T>)
    requires a <= b && b <= c
    ensures a <= c
  {
    assert a == b[..|a|];
    assert b == c[..|b|];
    assert c[..|b|][..|a|] == c[..|a|];
  }

  /** One more line only appends to each file. */
  lemma RunGrows(lookup: Lookup, lines: seq<string>, i: nat)
    requires i < |lines|
    ensures Extends(Run(lookup, lines[..i + 1]).sinks, Run(lookup, lines[..i]).sinks)
  {
    RunSnoc(lookup, lines, i);
  }

  /**
   * The rows written for the first `k` lines are still the first rows of
   * every file after all lines: rows are only ever appended, in input order.
   */
  lemma {:induction false} RunPrefix(lookup: Lookup, lines: seq<string>, k: nat)
    requires k <= |lines|
    ensures Extends(Run(lookup, lines).sinks, Run(lookup, lines[..k]).sinks)
    decreases |lines| - k
  {
    if k < |lines| {
      RunGrows(lookup, lines, k);
      RunPrefix(lookup, lines, k + 1);
      ExtendsTransitive(Run(lookup, lines[..k]).sinks, Run(lookup, lines[..k + 1]).sinks, Run(lookup, lines).sinks);
    } else {
      assert lines[..k] == lines;
    }
  }

  /** Line `line` is readable and its record yields the coordinate row `c`. */
  ghost predicate YieldsCoord(lookup: Lookup, line: string, c: CoordRow)
  {
    Parse(line).Some? && Accepted(lookup, Parse(line).value) && c == CoordOf(Parse(line).value)
  }

  /** Line `line` is readable and its record yields the chromosome mismatch row `m`. */
  ghost predicate YieldsChrMismatch(lookup: Lookup, line: string, m: ChrMismatchRow)
  {
    Parse(line).Some? && ChromosomeDiffers(lookup, Parse(line).value) && m == ChrMismatchOf(lookup, Parse(line).value)
  }

  /** Line `line` is readable and its record yields the nomenclature mismatch row `n`. */
  ghost predicate YieldsNomenMismatch(lookup: Lookup, line: string, n: NomenMismatchRow)
  {
    Parse(line).Some? && SymbolDiffers(lookup, Parse(line).value) && n == NomenMismatchOf(lookup, Parse(line).value)
  }

  /**
   * Every coordinate row comes from an input line whose record is accepted:
   * a gene on the primary assembly, known to MGI, on MGI's chromosome. So a
   * record that fails any of these tests never reaches the coordinate file.
   */
  lemma {:induction false} CoordRowsFromLines(lookup: Lookup, lines: seq<string>)
    ensures forall x :: x in Run(lookup, lines).sinks.coord ==>
      exists i :: 0 <= i < |lines| && YieldsCoord(lookup, lines[i], x)
    decreases |lines|
  {
    if |lines| > 0 {
      var last := |lines| - 1;
      var front := lines[..last];
      CoordRowsFromLines(lookup, front);
      RunSnoc(lookup, lines, last);
      assert lines[..last + 1] == lines;
      var prev := Run(lookup, front).sinks.coord;
      forall x | x in Run(lookup, lines).sinks.coord
        ensures exists i :: 0 <= i < |lines| && YieldsCoord(lookup, lines[i], x)
      {
        if x in prev {
          var i :| 0 <= i < last && YieldsCoord(lookup, front[i], x);
          assert front[i] == lines[i];
        } else {
          assert Run(lookup, front).failedAt.None? && Parse(lines[last]).Some?;
          var add := Contribution(lookup, Parse(lines[last]).value);
          assert x in add.coord;
          ContributionJustified(lookup, Parse(lines[last]).value);
        }
      }
    }
  }

  /** Every chromosome mismatch row comes from a known record on another chromosome. */
  lemma {:induction false} ChrRowsFromLines(lookup: Lookup, lines: seq<string>)
    ensures forall x :: x in Run(lookup, lines).sinks.chrMismatch ==>
      exists i :: 0 <= i < |lines| && YieldsChrMismatch(lookup, lines[i], x)
    decreases |lines|
  {
    if |lines| > 0 {
      var last := |lines| - 1;
      var front := lines[..last];
      ChrRowsFromLines(lookup, front);
      RunSnoc(lookup, lines, last);
      assert lines[..last + 1] == lines;
      var prev := Run(lookup, front).sinks.chrMismatch;
      forall x | x in Run(lookup, lines).sinks.chrMismatch
        ensures exists i :: 0 <= i < |lines| && YieldsChrMismatch(lookup, lines[i], x)
      {
        if x in prev {
          var i :| 0 <= i < last && YieldsChrMismatch(lookup, front[i], x);
          assert front[i] == lines[i];
        } else {
          assert Run(lookup, front).failedAt.None? && Parse(lines[last]).Some?;
          var add := Contribution(lookup, Parse(lines[last]).value);
          assert x in add.chrMismatch;
          ContributionJustified(lookup, Parse(lines[last]).value);
        }
      }
    }
  }

  /** Every nomenclature mismatch row comes from an accepted record with another symbol. */
  lemma {:induction false} NomenRowsFromLines(lookup: Lookup, lines: seq<string>)
    ensures forall x :: x in Run(lookup, lines).sinks.nomenMismatch ==>
      exists i :: 0 <= i < |lines| && YieldsNomenMismatch(lookup, lines[i], x)
    decreases |lines|
  {
    if |lines| > 0 {
      var last := |lines| - 1;
      var front := lines[..last];
      NomenRowsFromLines(lookup, front);
      RunSnoc(lookup, lines, last);
      assert lines[..last + 1] == lines;
      var prev := Run(lookup, front).sinks.nomenMismatch;
      forall x | x in Run(lookup, lines).sinks.nomenMismatch
        ensures exists i :: 0 <= i < |lines| && YieldsNomenMismatch(lookup, lines[i], x)
      {
        if x in prev {
          var i :| 0 <= i < last && YieldsNomenMismatch(lookup, front[i], x);
          assert front[i] == lines[i];
        } else {
          assert Run(lookup, front).failedAt.None? && Parse(lines[last]).Some?;
          var add := Contribution(lookup, Parse(lines[last]).value);
          assert x in add.nomenMismatch;
          ContributionJustified(lookup, Parse(lines[last]).value);
        }
      }
    }
  }

  /** Every line up to and including line `i` can be read. */
  ghost predicate ReadableThrough(lines: seq<string>, i: int)
  {
    forall j :: 0 <= j <= i && j < |lines| ==> Parse(lines[j]).Some?
  }

  /**
   * An accepted line has its coordinate row written, at the place its line
   * has in the input: right after the rows of the lines before it.
   */
  lemma CoordRowWritten(lookup: Lookup, lines: seq<string>, i: nat)
    requires i < |lines| && ReadableThrough(lines, i)
    requires Accepted(lookup, Parse(lines[i]).value)
    ensures var before := Run(lookup, lines[..i]).sinks.coord;
      var all := Run(lookup, lines).sinks.coord;
      |before| < |all| && all[|before|] == CoordOf(Parse(lines[i]).value)
  {
    ReadablePrefixCompletes(lookup, lines, i);
    RunStep(lookup, lines, i);
    RunPrefix(lookup, lines, i + 1);
    var f := Parse(lines[i]).value;
    AppendedAt(Run(lookup, lines[..i]).sinks.coord, CoordOf(f), Run(lookup, lines).sinks.coord);
  }

  /**
   * A symbol mismatch has its nomenclature row written, right after the
   * rows of the lines before it; its coordinate row is written as well
   * (`CoordRowWritten`, since the record is accepted).
   */
  lemma NomenRowWritten(lookup: Lookup, lines: seq<string>, i: nat)
    requires i < |lines| && ReadableThrough(lines, i)
    requires SymbolDiffers(lookup, Parse(lines[i]).value)
    ensures Accepted(lookup, Parse(lines[i]).value)
    ensures var before := Run(lookup, lines[..i]).sinks.nomenMismatch;
      var all := Run(lookup, lines).sinks.nomenMismatch;
      |before| < |all| && all[|before|] == NomenMismatchOf(lookup, Parse(lines[i]).value)
  {
    ReadablePrefixCompletes(lookup, lines, i);
    RunStep(lookup, lines, i);
    RunPrefix(lookup, lines, i + 1);
    var f := Parse(lines[i]).value;
    AppendedAt(Run(lookup, lines[..i]).sinks.nomenMismatch, NomenMismatchOf(lookup, f),
               Run(lookup, lines).sinks.nomenMismatch);
  }

  /** A chromosome mismatch has its report row written, right after the rows of the lines before it. */
  lemma ChrRowWritten(lookup: Lookup, lines: seq<string>, i: nat)
    requires i < |lines| && ReadableThrough(lines, i)
    requires ChromosomeDiffers(lookup, Parse(lines[i]).value)
    ensures var before := Run(lookup, lines[..i]).sinks.chrMismatch;
      var all := Run(lookup, lines).sinks.chrMismatch;
      |before| < |all| && all[|before|] == ChrMismatchOf(lookup, Parse(lines[i]).value)
  {
    ReadablePrefixCompletes(lookup, lines, i);
    RunStep(lookup, lines, i);
    RunPrefix(lookup, lines, i + 1);
    var f := Parse(lines[i]).value;
    AppendedAt(Run(lookup, lines[..i]).sinks.chrMismatch, ChrMismatchOf(lookup, f),
               Run(lookup, lines).sinks.chrMismatch);
  }

  lemma AppendedAt<T>(before: seq<T>, x: T, all: seq<T>)
    requires before + [x] <= all
    ensures |before| < |all| && all[|before|] == x
  {
    assert all[..|before| + 1] == before + [x];
    assert all[|before|] == all[..|before| + 1][|before|];
  }

  /** A pass over lines that can all be read does not stop. */
  lemma ReadablePrefixCompletes(lookup: Lookup, lines: seq<string>, i: nat)
    requires i <= |lines| && ReadableThrough(lines, i - 1)
    ensures Run(lookup, lines[..i]).failedAt.None?
  {
    RunCompletesIffReadable(lookup, lines[..i]);
    forall j | 0 <= j < i ensures Parse(lines[..i][j]).Some? {
      assert lines[..i][j] == lines[j];
    }
  }

  /**
   * Coordinate rows keep the order of their lines: an accepted line before
   * another accepted line has its row earlier in the coordinate file.
   */
  lemma CoordRowsInInputOrder(lookup: Lookup, lines: seq<string>, i: nat, j: nat)
    requires i < j < |lines| && ReadableThrough(lines, j)
    requires Accepted(lookup, Parse(lines[i]).value) && Accepted(lookup, Parse(lines[j]).value)
    ensures exists p, q ::
      && 0 <= p < q < |Run(lookup, lines).sinks.coord|
      && Run(lookup, lines).sinks.coord[p] == CoordOf(Parse(lines[i]).value)
      && Run(lookup, lines).sinks.coord[q] == CoordOf(Parse(lines[j]).value)
  {
    CoordRowWritten(lookup, lines, i);
    CoordRowWritten(lookup, lines, j);
    var pre := lines[..j];
    TakeOfTake(lines, i, j);
    ReadableThroughPrefix(lines, i, j);
    CoordRowWritten(lookup, pre, i);
  }

  lemma TakeOfTake<T>(s: seq<T>, i: nat, j: nat)
    requires i <= j <= |s|
    ensures s[..j][..i] == s[..i] && (i < j ==> s[..j][i] == s[i])
  {
  }

  /** Readability of the first lines carries over to a longer prefix of the input. */
  lemma ReadableThroughPrefix(lines: seq<string>, i: nat, j: nat)
    requires i < j <= |lines| && ReadableThrough(lines, i)
    ensures ReadableThrough(lines[..j], i)
  {
    forall k | 0 <= k <= i ensures Parse(lines[..j][k]).Some? {
      assert lines[..j][k] == lines[k];
    }
  }

  /** The reference entry of EntrezGene id 1017 used by the examples below. */
  const Cdk2Lookup: Lookup := map["1017" := MarkerRow("1017", "CDK2", "12")]

  /** A gene record of id 1017 on the primary assembly, with the given chromosome and name. */
  function Cdk2Feature(chromosome: string, name: string, groupLabel: string): Feature
  {
    Feature("9606", chromosome, "100", "200", "+", name, "GeneID:1017", "GENE", groupLabel)
  }

  lemma ContainsItself(s: string)
    ensures Contains(s, s)
  {
    assert OccursAt(s, s, 0);
  }

  /** Chromosome 11 against MGI's 12: one report row and no coordinates. */
  lemma ChromosomeMismatchExample()
    ensures Contribution(Cdk2Lookup, Cdk2Feature("11", "CDK2", PRIMARY_ASSEMBLY))
         == Sinks([ChrMismatchRow("1017", "11", "12")], [], [])
  {
    NormaliseExample();
    ContainsItself(GENE);
    ContainsItself(PRIMARY_ASSEMBLY);
  }

  /** Name CDK2X against MGI's CDK2: a nomenclature row, and the coordinates are still loaded. */
  lemma SymbolMismatchExample()
    ensures Contribution(Cdk2Lookup, Cdk2Feature("12", "CDK2X", PRIMARY_ASSEMBLY))
         == Sinks([], [NomenMismatchRow("1017", "CDK2X", "CDK2")], [CoordRow("1017", "12", "100", "200", "+")])
  {
    NormaliseExample();
    ContainsItself(GENE);
    ContainsItself(PRIMARY_ASSEMBLY);
  }

  /** Only the one build is accepted: a GRCh38 primary-assembly record adds nothing. */
  lemma OtherBuildExample()
    ensures Contribution(Cdk2Lookup, Cdk2Feature("12", "CDK2", "GRCh38.p1-Primary Assembly")) == NoRows
  {
    var other := "GRCh38.p1-Primary Assembly";
    assert !Contains(other, PRIMARY_ASSEMBLY) by {
      forall i ensures !OccursAt(other, PRIMARY_ASSEMBLY, i) {
        if i == 0 {
          assert other[5] != PRIMARY_ASSEMBLY[5];
        }
      }
    }
  }

  /**
   * A last line without its newline loses its last character to the slice
   * that drops the newline: a record whose assembly label was exactly the
   * accepted one no longer matches and adds nothing.
   */
  lemma UnterminatedLastLine(lookup: Lookup, f: Feature, skipped: seq<string>)
    requires |skipped| == 4 && forall i :: 0 <= i < 4 ==> TabFree(skipped[i])
    requires TabFree(f.taxId) && TabFree(f.chromosome) && TabFree(f.chrStart) && TabFree(f.chrStop)
    requires TabFree(f.chrOrient) && TabFree(f.featureName) && TabFree(f.featureId) && TabFree(f.featureType)
    requires f.groupLabel == PRIMARY_ASSEMBLY
    ensures Parse(DropLast(InputLine(f, skipped, []))).Some?
    ensures Contribution(lookup, Parse(DropLast(InputLine(f, skipped, []))).value) == NoRows
  {
    ParseUnterminatedLine(f, skipped);
    var g := f.(groupLabel := DropLast(PRIMARY_ASSEMBLY));
    assert !Contains(g.groupLabel, PRIMARY_ASSEMBLY) by {
      forall i ensures !OccursAt(g.groupLabel, PRIMARY_ASSEMBLY, i) { }
    }
  }
}
