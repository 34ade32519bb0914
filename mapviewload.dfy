/**
 * The loader's run state: the MGI lookup filled from the reference query,
 * and the three output files the coordinate pass appends to. The script
 * keeps these in module globals; here they are the fields of one object,
 * changed only by the two loops that change them in the script.
 */
module MapviewLoad {
  import opened Strings
  import opened Records
  import opened Routing

  /** How the coordinate pass ends: normally, or on the line whose tokens ran out. */
  datatype Outcome = Completed | MalformedLine(index: nat)

  /** What the pass over `lines` returns, from the state `Run` gives. */
  function OutcomeOf(run: RunState): Outcome
  {
    match run.failedAt
    case None => Completed
    case Some(i) => MalformedLine(i)
  }

  /**
   * The lookup after storing the query results one after the other, each
   * under its accID; a later row with the same accID replaces an earlier one.
   */
  function Store(lookup: Lookup, results: seq<MarkerRow>): (r: Lookup)
    ensures r.Keys == lookup.Keys + set i | 0 <= i < |results| :: results[i].accId
    decreases |results|
  {
    if |results| == 0 then
      lookup
    else
      var last := |results| - 1;
      var front := results[..last];
      var r := Store(lookup, front);
      assert (set i | 0 <= i < |results| :: results[i].accId)
          == (set i | 0 <= i < |front| :: front[i].accId) + {results[last].accId} by {
        forall i | 0 <= i < last ensures front[i] == results[i] { }
      }
      r[results[last].accId := results[last]]
  }

  /** Every entry of the lookup is stored under its own accID. */
  ghost predicate KeyedByAccId(lookup: Lookup)
  {
    forall id :: id in lookup ==> lookup[id].accId == id
  }

  /** Storing rows keeps every entry under its own accID. */
  lemma {:induction false} StoreKeyedByAccId(lookup: Lookup, results: seq<MarkerRow>)
    requires KeyedByAccId(lookup)
    ensures KeyedByAccId(Store(lookup, results))
    decreases |results|
  {
    if |results| > 0 {
      StoreKeyedByAccId(lookup, results[..|results| - 1]);
    }
  }

  /** The last row carrying an accID is the one the lookup keeps for it. */
  lemma {:induction false} StoreLastWriteWins(lookup: Lookup, results: seq<MarkerRow>, j: nat)
    requires j < |results|
    requires forall k :: j < k < |results| ==> results[k].accId != results[j].accId
    ensures results[j].accId in Store(lookup, results)
    ensures Store(lookup, results)[results[j].accId] == results[j]
    decreases |results|
  {
    var last := |results| - 1;
    if j < last {
      var front := results[..last];
      assert front[j] == results[j];
      StoreLastWriteWins(lookup, front, j);
    }
  }

  /** An id that no row carries keeps whatever the lookup held for it. */
  lemma {:induction false} StoreKeepsOthers(lookup: Lookup, results: seq<MarkerRow>, id: string)
    requires forall k :: 0 <= k < |results| ==> results[k].accId != id
    ensures id in Store(lookup, results) <==> id in lookup
    ensures id in lookup ==> Store(lookup, results)[id] == lookup[id]
    decreases |results|
  {
    if |results| > 0 {
      var front := results[..|results| - 1];
      assert forall k :: 0 <= k < |front| ==> front[k] == results[k];
      StoreKeepsOthers(lookup, front, id);
    }
  }

  lemma AppendAssociative(a: Sinks, b: Sinks, c: Sinks)
    ensures Append(a, Append(b, c)) == Append(Append(a, b), c)
  {
  }

  /** Appending no rows changes nothing, on either side. */
  lemma AppendNoRows(a: Sinks)
    ensures Append(a, NoRows) == a && Append(NoRows, a) == a
  {
    assert a.chrMismatch + [] == a.chrMismatch && [] + a.chrMismatch == a.chrMismatch;
    assert a.nomenMismatch + [] == a.nomenMismatch && [] + a.nomenMismatch == a.nomenMismatch;
    assert a.coord + [] == a.coord && [] + a.coord == a.coord;
  }

  class Loader {
    /** mgiLookup: EntrezGene id to its reference row. */
    var mgiLookup: Lookup
    /** The rows written to the chromosome mismatch report. */
    var chrMisMatch: seq<ChrMismatchRow>
    /** The rows written to the nomenclature mismatch report. */
    var nomenMisMatch: seq<NomenMismatchRow>
    /** The rows written to the human coordinate file. */
    var coord: seq<CoordRow>

    /** An empty lookup and three freshly opened, empty output files. */
    constructor ()
      ensures mgiLookup == map[] && chrMisMatch == [] && nomenMisMatch == [] && coord == []
    {
      mgiLookup := map[];
      chrMisMatch := [];
      nomenMisMatch := [];
      coord := [];
    }

    /** The rows written so far, as one value. */
    function Written(): Sinks
      reads this
    {
      Sinks(chrMisMatch, nomenMisMatch, coord)
    }

    /** Store each row of the reference query in the lookup under its accID. */
    method StoreResults(results: seq<MarkerRow>)
      modifies this
      ensures mgiLookup == Store(old(mgiLookup), results)
      ensures Written() == old(Written())
    {
      for i := 0 to |results|
        invariant mgiLookup == Store(old(mgiLookup), results[..i])
        invariant Written() == old(Written())
      {
        assert results[..i + 1][..i] == results[..i];
        var r := results[i];
        var egId := r.accId;
        mgiLookup := mgiLookup[egId := r];
      }
      assert results[..|results|] == results;
    }

    /**
     * The coordinate pass: read each line, apply the filters, and append
     * to the report and coordinate files. The lookup is only read.
     */
    method GetCoordinates(lines: seq<string>) returns (outcome: Outcome)
      modifies this
      ensures mgiLookup == old(mgiLookup)
      ensures Written() == Append(old(Written()), Run(mgiLookup, lines).sinks)
      ensures outcome == OutcomeOf(Run(mgiLookup, lines))
    {
      for i := 0 to |lines|
        invariant mgiLookup == old(mgiLookup)
        invariant Run(mgiLookup, lines[..i]).failedAt.None?
        invariant Written() == Append(old(Written()), Run(mgiLookup, lines[..i]).sinks)
      {
        RunSnoc(mgiLookup, lines, i);
        ghost var before := Written();
        var readable := LoadLine(lines[i]);
        if !readable {
          RunStaysFailed(mgiLookup, lines, i + 1);
          return MalformedLine(i);
        }
        AppendAssociative(old(Written()), Run(mgiLookup, lines[..i]).sinks,
                          Contribution(mgiLookup, Parse(lines[i]).value));
      }
      assert lines[..|lines|] == lines;
      return Completed;
    }

    /**
     * One turn of the coordinate loop: split the line, apply the filters,
     * and append what the record calls for. A line too short to read
     * raises before any write; it is reported by `readable` being false.
     */
    method LoadLine(line: string) returns (readable: bool)
      modifies this
      ensures mgiLookup == old(mgiLookup)
      ensures readable <==> Parse(line).Some?
      ensures !readable ==> Written() == old(Written())
      ensures readable ==> Written() == Append(old(Written()), Contribution(mgiLookup, Parse(line).value))
    {
      var tokens := Split(DropLast(line), TAB);
      if |tokens| < MIN_TOKENS {
        // reading token 12 raises an IndexError here, before any write
        return false;
      }
      var chromosome := tokens[1];
      var chrStart := tokens[2];
      var chrStop := tokens[3];
      var chrOrient := tokens[4];
      var featureName := tokens[9];
      var featureId := tokens[10];
      var featureType := tokens[11];
      var groupLabel := tokens[12];
      ghost var add := Contribution(mgiLookup, Parse(line).value);
      AppendNoRows(Written());

      if Find(featureType, GENE) < 0 {
        assert add == NoRows;
        return true;
      }
      if Find(groupLabel, PRIMARY_ASSEMBLY) < 0 {
        assert add == NoRows;
        return true;
      }
      featureId := Replace(featureId, GENE_ID_TAG, "");
      if featureId !in mgiLookup {
        assert add == NoRows;
        return true;
      }
      var mgiChromosome := mgiLookup[featureId].chromosome;
      if mgiChromosome != chromosome {
        assert add == Sinks([ChrMismatchRow(featureId, chromosome, mgiChromosome)], [], []);
        chrMisMatch := chrMisMatch + [ChrMismatchRow(featureId, chromosome, mgiChromosome)];
        return true;
      }
      var mgiSymbol := mgiLookup[featureId].symbol;
      assert add.chrMismatch == [];
      assert add.coord == [CoordRow(featureId, chromosome, chrStart, chrStop, chrOrient)];
      if mgiSymbol != featureName {
        assert add.nomenMismatch == [NomenMismatchRow(featureId, featureName, mgiSymbol)];
        nomenMisMatch := nomenMisMatch + [NomenMismatchRow(featureId, featureName, mgiSymbol)];
      } else {
        assert add.nomenMismatch == [];
      }
      coord := coord + [CoordRow(featureId, chromosome, chrStart, chrStop, chrOrient)];
      return true;
    }
  }

  /**
   * The script's own order of work: an empty lookup and empty output files,
   * the reference rows stored, then the coordinate pass over the lines.
   */
  method Load(results: seq<MarkerRow>, lines: seq<string>) returns (written: Sinks, outcome: Outcome)
    ensures written == Run(Store(map[], results), lines).sinks
    ensures outcome == OutcomeOf(Run(Store(map[], results), lines))
  {
    var loader := new Loader();
    loader.StoreResults(results);
    outcome := loader.GetCoordinates(lines);
    written := loader.Written();
    AppendNoRows(Run(Store(map[], results), lines).sinks);
  }
}
