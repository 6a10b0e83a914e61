/** The first two stages of `generate_bipartite_graph`: reading the
    exchanges table into interaction records, ranking them by flux and
    applying the flux cutoff. */
module ExchangeFilter {

  import opened Wrappers
  import opened Strings

  /** One exchange: a taxon imports or exports a metabolite. `direction` is
      kept as the text of the table ("import", "export" or anything else),
      `flux` is the magnitude. */
  datatype Interaction = Interaction(taxon: string, metabolite: string, direction: string, flux: real)

  /** The exceptions the engine raises. */
  datatype EngineError =
    | MissingColumn(line: string)     // IndexError: fewer than nine tab-separated fields
    | FluxNotNumeric(text: string)    // ValueError from float() on the flux field
    | InvalidCutoff(cutoff: string)   // ValueError for a cutoff string other than top20/top10
    | EmptyRanking                    // IndexError: a top-percentage cutoff on no interactions
    | CutoffNotNumeric(text: string)  // ValueError from the command line: neither a keyword nor a number

  function Abs(x: real): (r: real)
    ensures r >= 0.0 && (r == x || r == -x)
  {
    if x < 0.0 then -x else x
  }

  /** A line is skipped when the text "taxon" occurs anywhere in it. */
  predicate IsHeader(line: string)
  {
    Contains(line, "taxon")
  }

  /** One line of the table: `None` for a skipped line, else the record built
      from fields 1 (taxon), 5 (flux), 7 (metabolite) and 8 (direction).
      `parseFloat` stands for Python's `float()` on a field. */
  function ParseLine(line: string, relabel: map<string, string>, parseFloat: string -> Option<real>)
    : Result<Option<Interaction>, EngineError>
  {
    if IsHeader(line) then Success(None)
    else
      var cols := Split(Strip(line), '\t');
      if |cols| < 9 then Failure(MissingColumn(line))
      else
        var taxon := RemoveAll(cols[1], "_sp");
        var met := RemoveAll(cols[7], "_e");
        var metabolite := if met in relabel then relabel[met] else met;
        match parseFloat(cols[5])
        case None => Failure(FluxNotNumeric(cols[5]))
        case Some(f) => Success(Some(Interaction(taxon, metabolite, cols[8], Abs(f))))
  }

  type LineResult = Result<Option<Interaction>, EngineError>

  /** A skipped line parses to `None`; any other line to an error or to a
      record with non-negative flux. */
  lemma ParseLineShape(line: string, relabel: map<string, string>, parseFloat: string -> Option<real>)
    ensures var p := ParseLine(line, relabel, parseFloat);
      && (IsHeader(line) <==> p == Success(None))
      && (p.Success? && p.value.Some? ==> p.value.value.flux >= 0.0)
  {
  }

  /** `ParseLine` with the relabelling and the number reader fixed. */
  function LineParser(relabel: map<string, string>, parseFloat: string -> Option<real>): string -> LineResult
  {
    line => ParseLine(line, relabel, parseFloat)
  }

  /** What the table loop needs of a line parser: exactly the header lines
      give `None`, and records carry a non-negative flux. */
  ghost predicate WellBehaved(parse: string -> LineResult)
  {
    && (forall l :: parse(l) == Success(None) <==> IsHeader(l))
    && (forall l :: parse(l).Success? && parse(l).value.Some? ==> parse(l).value.value.flux >= 0.0)
  }

  lemma LineParserWellBehaved(relabel: map<string, string>, parseFloat: string -> Option<real>)
    ensures WellBehaved(LineParser(relabel, parseFloat))
  {
    forall l {
      ParseLineShape(l, relabel, parseFloat);
    }
  }

  /** The record a line contributes, if any. */
  function Records(o: Option<Interaction>): seq<Interaction>
  {
    if o.Some? then [o.value] else []
  }

  /** The records of `lines`, appended after `acc`; the first failing line
      ends the parse with its error. */
  function ParseFrom(acc: seq<Interaction>, lines: seq<string>, parse: string -> LineResult)
    : Result<seq<Interaction>, EngineError>
    decreases |lines|
  {
    if lines == [] then Success(acc)
    else
      var p := parse(lines[0]);
      if p.Failure? then Failure(p.error)
      else ParseFrom(acc + Records(p.value), lines[1..], parse)
  }

  /** The whole table read from the start. */
  function ParseTable(lines: seq<string>, relabel: map<string, string>, parseFloat: string -> Option<real>)
    : Result<seq<Interaction>, EngineError>
  {
    ParseFrom([], lines, LineParser(relabel, parseFloat))
  }

  /** The lines that are not skipped, in file order. */
  function DataLines(lines: seq<string>): (r: seq<string>)
    ensures forall l :: l in r ==> l in lines && !IsHeader(l)
  {
    if lines == [] then []
    else if IsHeader(lines[0]) then DataLines(lines[1..])
    else [lines[0]] + DataLines(lines[1..])
  }

  /** The result of a parse that starts from `acc`. */
  function Prepended(acc: seq<Interaction>, r: Result<seq<Interaction>, EngineError>): Result<seq<Interaction>, EngineError>
  {
    if r.Success? then Success(acc + r.value) else r
  }

  /** Starting from `acc` only puts `acc` in front of the records. */
  lemma {:induction false} ParseFromAcc(acc: seq<Interaction>, lines: seq<string>, parse: string -> LineResult)
    ensures ParseFrom(acc, lines, parse) == Prepended(acc, ParseFrom([], lines, parse))
    decreases |lines|
  {
    if lines != [] {
      var p := parse(lines[0]);
      if p.Success? {
        var more := Records(p.value);
        ParseFromAcc(acc + more, lines[1..], parse);
        ParseFromAcc(more, lines[1..], parse);
        assert [] + more == more;
        var rest := ParseFrom([], lines[1..], parse);
        if rest.Success? {
          assert acc + more + rest.value == acc + (more + rest.value);
        }
      }
    } else {
      assert acc + [] == acc;
    }
  }

  /** v holds one record per line of data, in order: the parse of that
      line, with a non-negative flux. */
  ghost predicate ParsedAs(v: seq<Interaction>, data: seq<string>, parse: string -> LineResult)
  {
    && |v| == |data|
    && forall k :: 0 <= k < |v| ==> parse(data[k]) == Success(Some(v[k])) && v[k].flux >= 0.0
  }

  lemma ParsedAsCons(rec: Interaction, v: seq<Interaction>, line: string, data: seq<string>, parse: string -> LineResult)
    requires ParsedAs(v, data, parse)
    requires parse(line) == Success(Some(rec)) && rec.flux >= 0.0
    ensures ParsedAs([rec] + v, [line] + data, parse)
  {
    forall k | 1 <= k < |v| + 1
      ensures parse(([line] + data)[k]) == Success(Some(([rec] + v)[k]))
    {
      assert ([line] + data)[k] == data[k - 1] && ([rec] + v)[k] == v[k - 1];
    }
  }

  /** A successful parse yields one record per data line, in file order, each
      with a non-negative flux. */
  lemma {:induction false} ParsedRecords(lines: seq<string>, parse: string -> LineResult)
    requires WellBehaved(parse)
    requires ParseFrom([], lines, parse).Success?
    ensures ParsedAs(ParseFrom([], lines, parse).value, DataLines(lines), parse)
    decreases |lines|
  {
    if lines != [] {
      var line := lines[0];
      var p := parse(line);
      var more := Records(p.value);
      assert [] + more == more;
      ParseFromAcc(more, lines[1..], parse);
      ParsedRecords(lines[1..], parse);
      var rest := ParseFrom([], lines[1..], parse).value;
      assert ParseFrom([], lines, parse).value == more + rest;
      if IsHeader(line) {
        assert DataLines(lines) == DataLines(lines[1..]);
      } else {
        assert DataLines(lines) == [line] + DataLines(lines[1..]);
        ParsedAsCons(p.value.value, rest, line, DataLines(lines[1..]), parse);
      }
    }
  }

  /** Data line j fails with error e, and every data line before it
      parses. */
  ghost predicate FirstFailureAt(data: seq<string>, parse: string -> LineResult, j: int, e: EngineError)
  {
    && 0 <= j < |data|
    && parse(data[j]) == Failure(e)
    && forall k :: 0 <= k < j ==> parse(data[k]).Success?
  }

  /** A failed parse reports the error of the first data line that fails:
      the reading stops there. */
  lemma {:induction false} ParseFailureLine(lines: seq<string>, parse: string -> LineResult)
    requires WellBehaved(parse)
    requires ParseFrom([], lines, parse).Failure?
    ensures exists j :: FirstFailureAt(DataLines(lines), parse, j, ParseFrom([], lines, parse).error)
    decreases |lines|
  {
    var line := lines[0];
    var p := parse(line);
    if p.Failure? {
      assert !IsHeader(line);
      assert DataLines(lines)[0] == line;
      assert FirstFailureAt(DataLines(lines), parse, 0, p.error);
    } else {
      var more := Records(p.value);
      assert [] + more == more;
      ParseFromAcc(more, lines[1..], parse);
      ParseFailureLine(lines[1..], parse);
      var e := ParseFrom([], lines[1..], parse).error;
      var tail := DataLines(lines[1..]);
      var j :| FirstFailureAt(tail, parse, j, e);
      if IsHeader(line) {
        assert DataLines(lines) == tail;
        assert FirstFailureAt(DataLines(lines), parse, j, e);
      } else {
        var data := DataLines(lines);
        assert data == [line] + tail;
        forall k | 0 <= k < j + 1 ensures parse(data[k]).Success? {
          if k > 0 {
            assert data[k] == tail[k - 1];
          }
        }
        assert FirstFailureAt(data, parse, j + 1, e);
      }
    }
  }

  /** Reading the table: one record per data line in file order, each the
      parse of its line; or the error of the first data line that fails,
      every data line before it parsing. */
  lemma TableRecords(lines: seq<string>, relabel: map<string, string>, parseFloat: string -> Option<real>)
    ensures var r := ParseTable(lines, relabel, parseFloat); var data := DataLines(lines);
      && (r.Success? ==>
            && |r.value| == |data|
            && forall k :: 0 <= k < |r.value| ==>
                 ParseLine(data[k], relabel, parseFloat) == Success(Some(r.value[k]))
                 && r.value[k].flux >= 0.0)
      && (r.Failure? ==>
            exists j :: 0 <= j < |data| && ParseLine(data[j], relabel, parseFloat) == Failure(r.error)
              && forall k :: 0 <= k < j ==> ParseLine(data[k], relabel, parseFloat).Success?)
  {
    var parse := LineParser(relabel, parseFloat);
    LineParserWellBehaved(relabel, parseFloat);
    if ParseFrom([], lines, parse).Success? {
      ParsedRecords(lines, parse);
    } else {
      ParseFailureLine(lines, parse);
      var j :| FirstFailureAt(DataLines(lines), parse, j, ParseFrom([], lines, parse).error);
    }
  }

  /** The loop at the head of `generate_bipartite_graph`: read the lines and
      append one record per data line. */
  method ReadInteractions(lines: seq<string>, relabel: map<string, string>, parseFloat: string -> Option<real>)
    returns (r: Result<seq<Interaction>, EngineError>)
    ensures r == ParseTable(lines, relabel, parseFloat)
  {
    var parse := LineParser(relabel, parseFloat);
    var all: seq<Interaction> := [];
    var i := 0;
    while i < |lines|
      invariant 0 <= i <= |lines|
      invariant ParseFrom(all, lines[i..], parse) == ParseFrom([], lines, parse)
    {
      assert lines[i..][0] == lines[i] && lines[i..][1..] == lines[i + 1..];
      var p := ParseLine(lines[i], relabel, parseFloat);
      if p.Failure? {
        return Failure(p.error);
      }
      all := all + Records(p.value);
      i := i + 1;
    }
    r := Success(all);
  }

  // ---------------------------------------------------------------------
  // Ranking: `all_interactions.sort(key=lambda x: x["flux"], reverse=True)`

  predicate SortedByFlux(s: seq<Interaction>)
  {
    forall i, j :: 0 <= i < j < |s| ==> s[i].flux >= s[j].flux
  }

  /** x placed after every record whose flux is at least its own. */
  function InsertByFlux(s: seq<Interaction>, x: Interaction): seq<Interaction>
  {
    if s == [] then [x]
    else if s[0].flux >= x.flux then [s[0]] + InsertByFlux(s[1..], x)
    else [x] + s
  }

  /** Python's stable sort by flux, largest first: records are inserted in
      input order, each after the ones whose flux is at least its own. */
  function SortByFlux(s: seq<Interaction>): seq<Interaction>
  {
    if s == [] then [] else InsertByFlux(SortByFlux(s[..|s| - 1]), s[|s| - 1])
  }

  /** The records of s with flux exactly v, in order (the ties at v). */
  function WithFlux(s: seq<Interaction>, v: real): (r: seq<Interaction>)
    ensures forall x :: x in r ==> x in s && x.flux == v
  {
    if s == [] then [] else (if s[0].flux == v then [s[0]] else []) + WithFlux(s[1..], v)
  }

  /** The records of s with flux at least t, in order. */
  function FluxAtLeast(s: seq<Interaction>, t: real): (r: seq<Interaction>)
    ensures forall x :: x in r ==> x in s && x.flux >= t
    ensures |r| <= |s|
  {
    if s == [] then [] else (if s[0].flux >= t then [s[0]] else []) + FluxAtLeast(s[1..], t)
  }

  lemma Associative(a: seq<Interaction>, b: seq<Interaction>, c: seq<Interaction>)
    ensures a + (b + c) == (a + b) + c
  {
  }

  lemma {:induction false} WithFluxAppend(s: seq<Interaction>, t: seq<Interaction>, v: real)
    ensures WithFlux(s + t, v) == WithFlux(s, v) + WithFlux(t, v)
    decreases |s|
  {
    if s != [] {
      assert (s + t)[0] == s[0];
      assert (s + t)[1..] == s[1..] + t;
      WithFluxAppend(s[1..], t, v);
    } else {
      assert s + t == t;
    }
  }

  lemma {:induction false} FluxAtLeastAppend(s: seq<Interaction>, t: seq<Interaction>, c: real)
    ensures FluxAtLeast(s + t, c) == FluxAtLeast(s, c) + FluxAtLeast(t, c)
    decreases |s|
  {
    if s != [] {
      assert (s + t)[0] == s[0];
      assert (s + t)[1..] == s[1..] + t;
      FluxAtLeastAppend(s[1..], t, c);
    } else {
      assert s + t == t;
    }
  }

  lemma {:induction false} InsertByFluxMultiset(s: seq<Interaction>, x: Interaction)
    ensures multiset(InsertByFlux(s, x)) == multiset(s) + multiset{x}
    decreases |s|
  {
    if s != [] && s[0].flux >= x.flux {
      InsertByFluxMultiset(s[1..], x);
      assert s == [s[0]] + s[1..];
    }
  }

  /** Inserting x into records whose flux is at most b, when x's flux is at
      most b too, gives records whose flux is at most b. */
  lemma {:induction false} InsertByFluxBounded(s: seq<Interaction>, x: Interaction, b: real)
    requires forall k :: 0 <= k < |s| ==> s[k].flux <= b
    requires x.flux <= b
    ensures |InsertByFlux(s, x)| == |s| + 1
    ensures forall k :: 0 <= k < |InsertByFlux(s, x)| ==> InsertByFlux(s, x)[k].flux <= b
    decreases |s|
  {
    if s != [] && s[0].flux >= x.flux {
      InsertByFluxBounded(s[1..], x, b);
    }
  }

  lemma {:induction false} InsertByFluxSorted(s: seq<Interaction>, x: Interaction)
    requires SortedByFlux(s)
    ensures SortedByFlux(InsertByFlux(s, x))
    decreases |s|
  {
    if s != [] && s[0].flux >= x.flux {
      assert SortedByFlux(s[1..]);
      InsertByFluxSorted(s[1..], x);
      var r1 := InsertByFlux(s[1..], x);
      InsertByFluxBounded(s[1..], x, s[0].flux);
      var r := [s[0]] + r1;
      forall i, j | 0 <= i < j < |r| ensures r[i].flux >= r[j].flux {
        assert r[j] == r1[j - 1];
        if i > 0 {
          assert r[i] == r1[i - 1];
        }
      }
    }
  }

  lemma {:induction false} NoTies(s: seq<Interaction>, v: real)
    requires forall k :: 0 <= k < |s| ==> s[k].flux != v
    ensures WithFlux(s, v) == []
    decreases |s|
  {
    if s != [] {
      NoTies(s[1..], v);
    }
  }

  /** The ties at v of a single record. */
  lemma WithFluxOne(x: Interaction, v: real)
    ensures WithFlux([x], v) == if x.flux == v then [x] else []
  {
    assert [x][1..] == [];
  }

  /** x goes in front of records that all have a smaller flux: none of
      them ties with x. */
  lemma InsertInFrontTies(s: seq<Interaction>, x: Interaction, v: real)
    requires SortedByFlux(s)
    requires s != [] && s[0].flux < x.flux
    ensures WithFlux([x] + s, v) == WithFlux(s, v) + WithFlux([x], v)
  {
    WithFluxAppend([x], s, v);
    WithFluxOne(x, v);
    if x.flux == v {
      forall k | 0 <= k < |s|
        ensures s[k].flux != v
      {
        assert s[k].flux <= s[0].flux;
      }
      NoTies(s, v);
    }
  }

  /** One step of the insertion: x goes past s[0], whose ties stay in
      front of the rest. */
  lemma InsertPastTies(s: seq<Interaction>, x: Interaction, v: real)
    requires s != [] && s[0].flux >= x.flux
    requires WithFlux(InsertByFlux(s[1..], x), v) == WithFlux(s[1..], v) + WithFlux([x], v)
    ensures WithFlux(InsertByFlux(s, x), v) == WithFlux(s, v) + WithFlux([x], v)
  {
    var r1 := InsertByFlux(s[1..], x);
    var h := WithFlux([s[0]], v);
    assert WithFlux(InsertByFlux(s, x), v) == h + WithFlux(r1, v) by {
      assert InsertByFlux(s, x) == [s[0]] + r1;
      WithFluxAppend([s[0]], r1, v);
    }
    assert WithFlux(s, v) == h + WithFlux(s[1..], v) by {
      assert s == [s[0]] + s[1..];
      WithFluxAppend([s[0]], s[1..], v);
    }
    Associative(h, WithFlux(s[1..], v), WithFlux([x], v));
  }

  lemma {:induction false} InsertByFluxTies(s: seq<Interaction>, x: Interaction, v: real)
    requires SortedByFlux(s)
    ensures WithFlux(InsertByFlux(s, x), v) == WithFlux(s, v) + WithFlux([x], v)
    decreases |s|
  {
    if s == [] {
    } else if s[0].flux >= x.flux {
      assert SortedByFlux(s[1..]);
      InsertByFluxTies(s[1..], x, v);
      InsertPastTies(s, x, v);
    } else {
      InsertInFrontTies(s, x, v);
    }
  }

  lemma {:induction false} SortByFluxSorted(s: seq<Interaction>)
    ensures SortedByFlux(SortByFlux(s))
    decreases |s|
  {
    if s != [] {
      SortByFluxSorted(s[..|s| - 1]);
      InsertByFluxSorted(SortByFlux(s[..|s| - 1]), s[|s| - 1]);
    }
  }

  lemma {:induction false} SortByFluxMultiset(s: seq<Interaction>)
    ensures multiset(SortByFlux(s)) == multiset(s)
    decreases |s|
  {
    if s != [] {
      var init := s[..|s| - 1];
      var x := s[|s| - 1];
      assert SortByFlux(s) == InsertByFlux(SortByFlux(init), x);
      SortByFluxMultiset(init);
      InsertByFluxMultiset(SortByFlux(init), x);
      assert s == init + [x];
      assert multiset(s) == multiset(init) + multiset{x};
    }
  }

  lemma {:induction false} SortByFluxStable(s: seq<Interaction>, v: real)
    ensures WithFlux(SortByFlux(s), v) == WithFlux(s, v)
    decreases |s|
  {
    if s != [] {
      var init := s[..|s| - 1];
      var x := s[|s| - 1];
      assert SortByFlux(s) == InsertByFlux(SortByFlux(init), x);
      SortByFluxStable(init, v);
      SortByFluxSorted(init);
      InsertByFluxTies(SortByFlux(init), x, v);
      assert s == init + [x];
      WithFluxAppend(init, [x], v);
    }
  }

  /** The ranking is sorted by flux, largest first, holds the same records,
      and keeps records of equal flux in input order (a stable sort). */
  lemma SortByFluxProperties(s: seq<Interaction>)
    ensures SortedByFlux(SortByFlux(s))
    ensures multiset(SortByFlux(s)) == multiset(s)
    ensures |SortByFlux(s)| == |s|
    ensures forall v :: WithFlux(SortByFlux(s), v) == WithFlux(s, v)
  {
    SortByFluxSorted(s);
    SortByFluxMultiset(s);
    assert |multiset(SortByFlux(s))| == |multiset(s)|;
    forall v ensures WithFlux(SortByFlux(s), v) == WithFlux(s, v) {
      SortByFluxStable(s, v);
    }
  }

  // ---------------------------------------------------------------------
  // The flux cutoff (lines 105-123)

  /** `flux_cutoff`: None, a number, or a string. */
  datatype FluxCutoff = NoCutoff | AtLeast(floor: real) | Keyword(text: string)

  /** The number of records the percentage keeps before ties:
      `max(1, int(n * p))` with p = 0.2 for top20 and 0.1 for top10. */
  function TopCount(n: nat, keyword: string): (k: nat)
    requires keyword == "top20" || keyword == "top10"
    ensures k >= 1 && (n >= 1 ==> k <= n)
    ensures keyword == "top20" ==> k == if n / 5 >= 1 then n / 5 else 1
    ensures keyword == "top10" ==> k == if n / 10 >= 1 then n / 10 else 1
  {
    var m := if keyword == "top20" then n * 2 / 10 else n / 10;
    if m >= 1 then m else 1
  }

  /** The survivors of the cutoff, given the ranked records. */
  function ApplyCutoff(ranked: seq<Interaction>, cutoff: FluxCutoff): Result<seq<Interaction>, EngineError>
  {
    match cutoff
    case NoCutoff => Success(ranked)
    case AtLeast(c) => Success(FluxAtLeast(ranked, c))
    case Keyword(w) =>
      if w == "top20" || w == "top10" then
        var k := TopCount(|ranked|, w);
        if |ranked| == 0 then Failure(EmptyRanking)
        else Success(FluxAtLeast(ranked, ranked[k - 1].flux))
      else Failure(InvalidCutoff(w))
  }

  /** The number of leading records whose flux is at least t. */
  function FirstBelow(s: seq<Interaction>, t: real): (j: nat)
    ensures j <= |s|
    ensures forall i :: 0 <= i < j ==> s[i].flux >= t
    ensures j < |s| ==> s[j].flux < t
  {
    if s == [] || s[0].flux < t then 0 else 1 + FirstBelow(s[1..], t)
  }

  lemma {:induction false} FluxAtLeastNone(s: seq<Interaction>, t: real)
    requires forall i :: 0 <= i < |s| ==> s[i].flux < t
    ensures FluxAtLeast(s, t) == []
    decreases |s|
  {
    if s != [] {
      FluxAtLeastNone(s[1..], t);
    }
  }

  /** Records that reach t up to index j and fall below it from there on:
      the ones reaching t are the first j. */
  lemma {:induction false} FluxAtLeastSplit(s: seq<Interaction>, t: real, j: nat)
    requires j <= |s|
    requires forall i :: 0 <= i < j ==> s[i].flux >= t
    requires forall i :: j <= i < |s| ==> s[i].flux < t
    ensures FluxAtLeast(s, t) == s[..j]
    decreases |s|
  {
    if j == 0 {
      FluxAtLeastNone(s, t);
    } else {
      var tail := s[1..];
      forall i | 0 <= i < j - 1 ensures tail[i].flux >= t {
        assert tail[i] == s[i + 1];
      }
      forall i | j - 1 <= i < |tail| ensures tail[i].flux < t {
        assert tail[i] == s[i + 1];
      }
      FluxAtLeastSplit(tail, t, j - 1);
      assert [s[0]] + tail[..j - 1] == s[..j];
    }
  }

  /** On a ranking, the records with flux at least t are a prefix, and the
      first record after it falls below t. */
  lemma FluxAtLeastIsPrefix(s: seq<Interaction>, t: real)
    requires SortedByFlux(s)
    ensures var j := |FluxAtLeast(s, t)|;
      && FluxAtLeast(s, t) == s[..j]
      && (forall i :: 0 <= i < j ==> s[i].flux >= t)
      && (forall i :: j <= i < |s| ==> s[i].flux < t)
  {
    var j := FirstBelow(s, t);
    forall i | j <= i < |s| ensures s[i].flux < t {
      assert s[i].flux <= s[j].flux;
    }
    FluxAtLeastSplit(s, t, j);
  }

  /** Records with flux at least c: the same records whichever order they
      come in, and ties in the same order. */
  lemma {:induction false} FluxAtLeastWithFlux(s: seq<Interaction>, c: real, v: real)
    ensures WithFlux(FluxAtLeast(s, c), v) == if v >= c then WithFlux(s, v) else []
    decreases |s|
  {
    if s != [] {
      FluxAtLeastWithFlux(s[1..], c, v);
      var head := if s[0].flux >= c then [s[0]] else [];
      WithFluxAppend(head, FluxAtLeast(s[1..], c), v);
    }
  }

  lemma {:induction false} FluxAtLeastMultiset(s: seq<Interaction>, c: real, x: Interaction)
    ensures multiset(FluxAtLeast(s, c))[x] == if x.flux >= c then multiset(s)[x] else 0
    decreases |s|
  {
    if s != [] {
      FluxAtLeastMultiset(s[1..], c, x);
      assert s == [s[0]] + s[1..];
    }
  }

  /** A numeric cutoff c keeps exactly the records whose flux is at least c
      (each as often as it occurs in the file), largest flux first, and
      records of equal flux in file order. */
  lemma NumericCutoffSurvivors(records: seq<Interaction>, c: real)
    ensures ApplyCutoff(SortByFlux(records), AtLeast(c)).Success?
    ensures var out := ApplyCutoff(SortByFlux(records), AtLeast(c)).value;
      && SortedByFlux(out)
      && (forall x: Interaction :: multiset(out)[x] == if x.flux >= c then multiset(records)[x] else 0)
      && (forall v :: WithFlux(out, v) == if v >= c then WithFlux(records, v) else [])
      && out == SortByFlux(records)[..|out|]
  {
    var ranked := SortByFlux(records);
    SortByFluxProperties(records);
    var out := FluxAtLeast(ranked, c);
    FluxAtLeastIsPrefix(ranked, c);
    forall x: Interaction ensures multiset(out)[x] == if x.flux >= c then multiset(records)[x] else 0 {
      FluxAtLeastMultiset(ranked, c, x);
    }
    forall v ensures WithFlux(out, v) == if v >= c then WithFlux(records, v) else [] {
      FluxAtLeastWithFlux(ranked, c, v);
    }
  }

  /** On a ranking, keeping the records whose flux reaches the k-th
      largest keeps the first j >= k records, past k only through ties. */
  lemma RankCutoff(ranked: seq<Interaction>, k: nat)
    requires SortedByFlux(ranked)
    requires 1 <= k <= |ranked|
    ensures var out := FluxAtLeast(ranked, ranked[k - 1].flux);
      && k <= |out| <= |ranked|
      && out == ranked[..|out|]
      && (forall i :: k - 1 <= i < |out| ==> ranked[i].flux == ranked[k - 1].flux)
      && (forall i :: |out| <= i < |ranked| ==> ranked[i].flux < ranked[k - 1].flux)
  {
    var t := ranked[k - 1].flux;
    FluxAtLeastIsPrefix(ranked, t);
    var out := FluxAtLeast(ranked, t);
    assert k <= |out| by {
      assert !(ranked[k - 1].flux < t);
    }
    forall i | k - 1 <= i < |out| ensures ranked[i].flux == t {
      assert ranked[i].flux >= t;
    }
  }

  /** With top20 or top10 on n >= 1 records and k = max(1, floor(n p)), the
      survivors are the first j >= k ranked records: all whose flux reaches
      the k-th largest flux, so j exceeds k only through ties at that flux. */
  lemma TopCutoffSurvivors(records: seq<Interaction>, keyword: string)
    requires keyword == "top20" || keyword == "top10"
    requires |records| >= 1
    ensures ApplyCutoff(SortByFlux(records), Keyword(keyword)).Success?
    ensures var ranked := SortByFlux(records);
      var k := TopCount(|records|, keyword);
      var out := ApplyCutoff(ranked, Keyword(keyword)).value;
      && |ranked| == |records|
      && k <= |out| <= |ranked|
      && out == ranked[..|out|]
      && (forall i :: k - 1 <= i < |out| ==> ranked[i].flux == ranked[k - 1].flux)
      && (forall i :: |out| <= i < |ranked| ==> ranked[i].flux < ranked[k - 1].flux)
  {
    var ranked := SortByFlux(records);
    SortByFluxProperties(records);
    var k := TopCount(|records|, keyword);
    assert ApplyCutoff(ranked, Keyword(keyword)) == Success(FluxAtLeast(ranked, ranked[k - 1].flux));
    RankCutoff(ranked, k);
  }

  /** A cutoff string other than top20 and top10 raises; so does a
      percentage cutoff on an empty table. */
  lemma CutoffErrors(ranked: seq<Interaction>, w: string)
    ensures w != "top20" && w != "top10" ==> ApplyCutoff(ranked, Keyword(w)) == Failure(InvalidCutoff(w))
    ensures (w == "top20" || w == "top10") && ranked == [] ==> ApplyCutoff(ranked, Keyword(w)) == Failure(EmptyRanking)
  {
  }
}
