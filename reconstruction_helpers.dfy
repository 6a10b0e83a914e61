/** Identifier and formula helpers of the reconstruction code: stripping a
    compartment suffix, counting the elements of a chemical formula, the
    CO2 and HCO3 tests, the exchange medium of a media database, and the
    BiGG name lookup. Files are read elsewhere; here the rows are in
    memory. */
module ReconstructionHelpers {

  import opened Wrappers
  import opened Strings

  datatype HelperError =
    | MediumNotFound(medium: string)   // ValueError: medium absent from the database
    | NoSecondField(metId: string)     // IndexError: the id has no "_"

  predicate IsUpper(c: char) { 'A' <= c <= 'Z' }
  predicate IsLower(c: char) { 'a' <= c <= 'z' }

  // ---------------------------------------------------------------------
  // remove_compartment

  /** `re.sub(r"_[a-z]$", "", id)`. The pattern cannot match twice, and
      `$` matches at the very end or just before a final newline, which is
      kept. */
  function RemoveCompartment(id: string): (r: string)
    ensures |r| == |id| || |r| == |id| - 2
  {
    var n := |id|;
    if n >= 2 && id[n - 2] == '_' && IsLower(id[n - 1]) then id[..n - 2]
    else if n >= 3 && id[n - 1] == '\n' && id[n - 3] == '_' && IsLower(id[n - 2]) then id[..n - 3] + "\n"
    else id
  }

  predicate EndsWith(s: string, suffix: string)
  {
    |suffix| <= |s| && s[|s| - |suffix|..] == suffix
  }

  /** The id ends with `_` and one lower-case letter, possibly followed by a
      final newline. */
  predicate HasCompartmentSuffix(id: string)
  {
    exists c :: IsLower(c) && (EndsWith(id, ['_', c]) || EndsWith(id, ['_', c, '\n']))
  }

  /** The two suffixes the pattern looks for, character by character. */
  lemma SuffixChars(id: string, c: char)
    ensures EndsWith(id, ['_', c]) <==> |id| >= 2 && id[|id| - 2] == '_' && id[|id| - 1] == c
    ensures EndsWith(id, ['_', c, '\n']) <==> |id| >= 3 && id[|id| - 3] == '_' && id[|id| - 2] == c && id[|id| - 1] == '\n'
  {
    if |id| >= 2 {
      assert id[|id| - 2..][0] == id[|id| - 2] && id[|id| - 2..][1] == id[|id| - 1];
    }
    if |id| >= 3 {
      assert id[|id| - 3..][0] == id[|id| - 3] && id[|id| - 3..][1] == id[|id| - 2];
      assert id[|id| - 3..][2] == id[|id| - 1];
    }
  }

  /** Exactly a trailing `_x` (x lower-case) is removed, before a final
      newline if there is one; any other id comes back unchanged. */
  lemma CompartmentRemoved(id: string)
    ensures var r := RemoveCompartment(id);
      && (r != id <==> HasCompartmentSuffix(id))
      && (r != id ==> |r| == |id| - 2 && (r == id[..|id| - 2] || (|id| >= 3 && r == id[..|id| - 3] + "\n")))
  {
    var n := |id|;
    if n >= 2 && id[n - 2] == '_' && IsLower(id[n - 1]) {
      SuffixChars(id, id[n - 1]);
    } else if n >= 3 && id[n - 1] == '\n' && id[n - 3] == '_' && IsLower(id[n - 2]) {
      SuffixChars(id, id[n - 2]);
    } else {
      forall c | IsLower(c) ensures !EndsWith(id, ['_', c]) && !EndsWith(id, ['_', c, '\n']) {
        SuffixChars(id, c);
      }
    }
  }

  /** Stripping is not idempotent: a second call strips a second suffix. */
  lemma RemoveCompartmentNotIdempotent()
    ensures RemoveCompartment("a_b_c") == "a_b"
    ensures RemoveCompartment(RemoveCompartment("a_b_c")) == "a"
  {
    assert "a_b_c"[..3] == "a_b";
    assert "a_b"[..1] == "a";
  }

  // ---------------------------------------------------------------------
  // Assigning keys one after the other (the dictionary-filling loops)

  /** `d[k] = v` for each pair in order, starting from m. */
  function AssignAll<V>(m: map<string, V>, kvs: seq<(string, V)>): map<string, V>
    decreases |kvs|
  {
    if kvs == [] then m else AssignAll(m[kvs[0].0 := kvs[0].1], kvs[1..])
  }

  /** The keys are those of m and of the pairs. */
  lemma {:induction false} AssignedKeys<V>(m: map<string, V>, kvs: seq<(string, V)>)
    ensures forall k :: k in AssignAll(m, kvs) <==> k in m || exists j :: 0 <= j < |kvs| && kvs[j].0 == k
    decreases |kvs|
  {
    if kvs != [] {
      var m1 := m[kvs[0].0 := kvs[0].1];
      var tail := kvs[1..];
      AssignedKeys(m1, tail);
      forall k | k in AssignAll(m, kvs) ensures k in m || exists j :: 0 <= j < |kvs| && kvs[j].0 == k {
        if k !in m1 {
          var j :| 0 <= j < |tail| && tail[j].0 == k;
          assert kvs[j + 1].0 == k;
        } else if k !in m {
          assert kvs[0].0 == k;
        }
      }
      forall k | k in m || exists j :: 0 <= j < |kvs| && kvs[j].0 == k ensures k in AssignAll(m, kvs) {
        if k !in m1 {
          var j :| 0 <= j < |kvs| && kvs[j].0 == k;
          assert tail[j - 1].0 == k;
        }
      }
    }
  }

  /** A key gets the value of its last pair. */
  lemma {:induction false} LastAssignmentWins<V>(m: map<string, V>, kvs: seq<(string, V)>, j: int)
    requires 0 <= j < |kvs|
    requires forall i :: j < i < |kvs| ==> kvs[i].0 != kvs[j].0
    ensures kvs[j].0 in AssignAll(m, kvs) && AssignAll(m, kvs)[kvs[j].0] == kvs[j].1
    decreases |kvs|
  {
    var m1 := m[kvs[0].0 := kvs[0].1];
    var tail := kvs[1..];
    if j > 0 {
      assert kvs[j] == tail[j - 1];
      forall i | j - 1 < i < |tail| ensures tail[i].0 != tail[j - 1].0 {
        assert tail[i] == kvs[i + 1];
      }
      LastAssignmentWins(m1, tail, j - 1);
    } else {
      forall i | 0 <= i < |tail| ensures tail[i].0 != kvs[0].0 {
        assert tail[i] == kvs[i + 1];
      }
      AssignmentsElsewhere(m1, tail, kvs[0].0);
    }
  }

  /** A key no pair mentions keeps its value. */
  lemma {:induction false} AssignmentsElsewhere<V>(m: map<string, V>, kvs: seq<(string, V)>, k: string)
    requires k in m
    requires forall j :: 0 <= j < |kvs| ==> kvs[j].0 != k
    ensures k in AssignAll(m, kvs) && AssignAll(m, kvs)[k] == m[k]
    decreases |kvs|
  {
    if kvs != [] {
      assert kvs[0].0 != k;
      forall j | 0 <= j < |kvs[1..]| ensures kvs[1..][j].0 != k {
        assert kvs[1..][j] == kvs[j + 1];
      }
      AssignmentsElsewhere(m[kvs[0].0 := kvs[0].1], kvs[1..], k);
    }
  }

  // ---------------------------------------------------------------------
  // extract_chemical_elements

  /** Length of the longest prefix of lower-case letters. */
  function LowerRun(s: string): (n: nat)
    ensures n <= |s|
    ensures forall i :: 0 <= i < n ==> IsLower(s[i])
    ensures n < |s| ==> !IsLower(s[n])
  {
    if s != [] && IsLower(s[0]) then 1 + LowerRun(s[1..]) else 0
  }

  /** Length of the longest prefix of digits. */
  function DigitRun(s: string): (n: nat)
    ensures n <= |s|
    ensures forall i :: 0 <= i < n ==> IsDigit(s[i])
    ensures n < |s| ==> !IsDigit(s[n])
  {
    if s != [] && IsDigit(s[0]) then 1 + DigitRun(s[1..]) else 0
  }

  /** One match of `([A-Z][a-z]*)(\d*)`: the element name and its digits. */
  type Token = (string, string)

  /** A capital, then lower-case letters; and only digits after it. */
  predicate WellFormed(t: Token)
  {
    && |t.0| >= 1 && IsUpper(t.0[0]) && (forall i :: 1 <= i < |t.0| ==> IsLower(t.0[i]))
    && (forall i :: 0 <= i < |t.1| ==> IsDigit(t.1[i]))
  }

  /** The match of the pattern at the start of s (which is a capital): the
      longest name, then the longest run of digits. */
  function TokenHead(s: string): (t: Token)
    requires s != [] && IsUpper(s[0])
    ensures WellFormed(t) && |t.0| + |t.1| <= |s|
  {
    var n := 1 + LowerRun(s[1..]);
    var d := DigitRun(s[n..]);
    (s[..n], s[n..n + d])
  }

  /** The match spells the text it covers, and it cannot be made longer. */
  lemma TokenHeadSpan(s: string)
    requires s != [] && IsUpper(s[0])
    ensures var t := TokenHead(s);
      && s[..|t.0| + |t.1|] == t.0 + t.1
      && (|t.1| == 0 && |t.0| < |s| ==> !IsLower(s[|t.0|]) && !IsDigit(s[|t.0|]))
      && (|t.0| + |t.1| < |s| ==> !IsDigit(s[|t.0| + |t.1|]))
  {
  }

  /** `re.findall(r"([A-Z][a-z]*)(\d*)", s)`: matches are taken left to
      right; a character where no match starts is skipped. */
  function Tokens(s: string): (r: seq<Token>)
    ensures forall j :: 0 <= j < |r| ==> WellFormed(r[j])
    decreases |s|
  {
    if s == [] then []
    else if IsUpper(s[0]) then
      var t := TokenHead(s);
      [t] + Tokens(s[|t.0| + |t.1|..])
    else Tokens(s[1..])
  }

  predicate CapitalAt(s: string, i: int)
  {
    0 <= i < |s| && IsUpper(s[i])
  }

  /** The match that starts at the capital s[i]. */
  function TokenAt(s: string, i: int): Token
    requires CapitalAt(s, i)
  {
    TokenHead(s[i..])
  }

  /** Dropping a prefix of s moves the capitals and keeps their matches. */
  lemma TokenAtShift(s: string, k: nat, i: int)
    requires k <= i && CapitalAt(s, i)
    ensures CapitalAt(s[k..], i - k) && TokenAt(s[k..], i - k) == TokenAt(s, i)
  {
    assert s[k..][i - k..] == s[i..];
  }

  /** A capital of s[k..] is a capital of s, with the same match. */
  lemma TokenAtUnshift(s: string, k: nat, j: int)
    requires k <= |s| && CapitalAt(s[k..], j)
    ensures CapitalAt(s, k + j) && TokenAt(s, k + j) == TokenAt(s[k..], j)
  {
    assert s[k..][j] == s[k + j];
    assert s[k..][j..] == s[k + j..];
  }

  /** Each of ts is the match at some capital of s. */
  ghost predicate MatchesAtCapitals(s: string, ts: seq<Token>)
  {
    forall t :: t in ts ==> exists i :: CapitalAt(s, i) && t == TokenAt(s, i)
  }

  /** The match at each capital of s is one of ts. */
  ghost predicate CapitalsMatched(s: string, ts: seq<Token>)
  {
    forall i :: CapitalAt(s, i) ==> TokenAt(s, i) in ts
  }

  /** A match at a capital after position k is a match at a capital of s. */
  lemma ShiftedMatch(s: string, k: nat, u: Token)
    requires k <= |s|
    requires exists i :: CapitalAt(s[k..], i) && u == TokenAt(s[k..], i)
    ensures exists i :: CapitalAt(s, i) && u == TokenAt(s, i)
  {
    var i :| CapitalAt(s[k..], i) && u == TokenAt(s[k..], i);
    TokenAtUnshift(s, k, i);
  }

  /** A first character that is not a capital starts no match. */
  lemma MatchesAfterSkip(s: string)
    requires s != [] && !IsUpper(s[0])
    requires MatchesAtCapitals(s[1..], Tokens(s[1..]))
    ensures MatchesAtCapitals(s, Tokens(s))
  {
    forall u | u in Tokens(s)
      ensures exists i :: CapitalAt(s, i) && u == TokenAt(s, i)
    {
      ShiftedMatch(s, 1, u);
    }
  }

  /** The capitals of s are those of s[1..]. */
  lemma CapitalsAfterSkip(s: string)
    requires s != [] && !IsUpper(s[0])
    requires CapitalsMatched(s[1..], Tokens(s[1..]))
    ensures CapitalsMatched(s, Tokens(s))
  {
    forall i | CapitalAt(s, i) ensures TokenAt(s, i) in Tokens(s) {
      TokenAtShift(s, 1, i);
    }
  }

  /** No capital lies inside the match at the start of s. */
  lemma NoCapitalInsideMatch(s: string)
    requires s != [] && IsUpper(s[0])
    ensures var t := TokenHead(s); forall i :: 0 < i < |t.0| + |t.1| ==> !IsUpper(s[i])
  {
    var t := TokenHead(s);
    TokenHeadSpan(s);
    forall i | 0 < i < |t.0| + |t.1| ensures !IsUpper(s[i]) {
      assert s[i] == (t.0 + t.1)[i];
    }
  }

  /** A match at the start of s, then the matches of the text after it. */
  lemma MatchesAfterMatch(s: string, t: Token, len: nat, tail: seq<Token>)
    requires len <= |s| && CapitalAt(s, 0) && TokenAt(s, 0) == t
    requires MatchesAtCapitals(s[len..], tail)
    ensures MatchesAtCapitals(s, [t] + tail)
  {
    forall u | u in [t] + tail
      ensures exists i :: CapitalAt(s, i) && u == TokenAt(s, i)
    {
      if u != t {
        ShiftedMatch(s, len, u);
      }
    }
  }

  /** When no capital lies inside the first match, every capital starts
      the first match or one of the text after it. */
  lemma CapitalsAfterMatch(s: string, t: Token, len: nat, tail: seq<Token>)
    requires len <= |s| && CapitalAt(s, 0) && TokenAt(s, 0) == t
    requires forall i :: 0 < i < len ==> !IsUpper(s[i])
    requires CapitalsMatched(s[len..], tail)
    ensures CapitalsMatched(s, [t] + tail)
  {
    forall i | CapitalAt(s, i) ensures TokenAt(s, i) in [t] + tail {
      if i != 0 {
        TokenAtShift(s, len, i);
      }
    }
  }

  /** A capital first character starts the first token, which is its
      match; no capital lies inside it. */
  lemma HeadToken(s: string)
    requires s != [] && IsUpper(s[0])
    ensures var t := TokenHead(s);
      var len := |t.0| + |t.1|;
      && len <= |s|
      && Tokens(s) == [t] + Tokens(s[len..])
      && CapitalAt(s, 0) && TokenAt(s, 0) == t
      && forall i :: 0 < i < len ==> !IsUpper(s[i])
  {
    assert s[0..] == s;
    NoCapitalInsideMatch(s);
  }

  /** Every token is the match at a capital letter of the formula. */
  lemma {:induction false} TokensStartAtCapitals(s: string)
    ensures MatchesAtCapitals(s, Tokens(s))
    decreases |s|
  {
    if s == [] {
      assert Tokens(s) == [];
    } else if IsUpper(s[0]) {
      var t := TokenHead(s);
      var len := |t.0| + |t.1|;
      var tail := Tokens(s[len..]);
      HeadToken(s);
      TokensStartAtCapitals(s[len..]);
      MatchesAfterMatch(s, t, len, tail);
      assert MatchesAtCapitals(s, [t] + tail);
    } else {
      TokensStartAtCapitals(s[1..]);
      MatchesAfterSkip(s);
    }
  }

  /** Every capital letter of the formula starts a token. */
  lemma {:induction false} CapitalsStartTokens(s: string)
    ensures CapitalsMatched(s, Tokens(s))
    decreases |s|
  {
    if s == [] {
      assert forall i :: !CapitalAt(s, i);
    } else if IsUpper(s[0]) {
      var t := TokenHead(s);
      var len := |t.0| + |t.1|;
      var tail := Tokens(s[len..]);
      HeadToken(s);
      CapitalsStartTokens(s[len..]);
      CapitalsAfterMatch(s, t, len, tail);
      assert CapitalsMatched(s, [t] + tail);
    } else {
      CapitalsStartTokens(s[1..]);
      CapitalsAfterSkip(s);
    }
  }

  /** `int(count) if count else 1`. */
  function CountOf(t: Token): nat
    requires WellFormed(t)
  {
    if t.1 == [] then 1 else DigitsValue(t.1)
  }

  /** The tokens as (element, count) pairs. */
  function Counted(ts: seq<Token>): (r: seq<(string, nat)>)
    requires forall j :: 0 <= j < |ts| ==> WellFormed(ts[j])
    ensures |r| == |ts|
    ensures forall j :: 0 <= j < |ts| ==> r[j] == (ts[j].0, CountOf(ts[j]))
  {
    if ts == [] then [] else [(ts[0].0, CountOf(ts[0]))] + Counted(ts[1..])
  }

  /** The element counts the source computes for a formula. */
  function Elements(formula: string): map<string, nat>
  {
    AssignAll(map[], Counted(Tokens(formula)))
  }

  /** Lines 16-20: the loop filling the dictionary. */
  method ExtractChemicalElements(formula: string) returns (m: map<string, nat>)
    ensures m == Elements(formula)
  {
    var components := Tokens(formula);
    m := map[];
    var i := 0;
    while i < |components|
      invariant 0 <= i <= |components|
      invariant AssignAll(m, Counted(components[i..])) == Elements(formula)
    {
      var (element, count) := components[i];
      assert Counted(components[i..])[0] == (element, CountOf(components[i]));
      assert Counted(components[i..])[1..] == Counted(components[i + 1..]);
      m := m[element := if count != [] then DigitsValue(count) else 1];
      i := i + 1;
    }
  }

  /** Every key is the element name of the match at a capital. */
  lemma ElementKeysFromCapitals(formula: string)
    ensures forall el :: el in Elements(formula) ==>
      exists i :: CapitalAt(formula, i) && TokenAt(formula, i).0 == el
  {
    var ts := Tokens(formula);
    TokensStartAtCapitals(formula);
    var kvs := Counted(ts);
    AssignedKeys(map[], kvs);
    forall el | el in Elements(formula)
      ensures exists i :: CapitalAt(formula, i) && TokenAt(formula, i).0 == el
    {
      var j :| 0 <= j < |kvs| && kvs[j].0 == el;
      assert ts[j] in ts;
    }
  }

  /** The element name of the match at every capital is a key. */
  lemma CapitalsGiveElementKeys(formula: string)
    ensures forall i :: CapitalAt(formula, i) ==> TokenAt(formula, i).0 in Elements(formula)
  {
    var ts := Tokens(formula);
    CapitalsStartTokens(formula);
    var kvs := Counted(ts);
    AssignedKeys(map[], kvs);
    forall i | CapitalAt(formula, i) ensures TokenAt(formula, i).0 in Elements(formula) {
      var j :| 0 <= j < |ts| && ts[j] == TokenAt(formula, i);
      assert kvs[j].0 == ts[j].0;
    }
  }

  /** The value of an element is the count of its last occurrence (a
      repeated element is overwritten, not added up), 1 when no digits
      follow it. */
  lemma ElementCounts(formula: string, j: int)
    requires 0 <= j < |Tokens(formula)|
    requires forall i :: j < i < |Tokens(formula)| ==> Tokens(formula)[i].0 != Tokens(formula)[j].0
    ensures var t := Tokens(formula)[j];
      t.0 in Elements(formula) && Elements(formula)[t.0] == (if t.1 == [] then 1 else DigitsValue(t.1))
  {
    var ts := Tokens(formula);
    var kvs := Counted(ts);
    assert kvs[j] == (ts[j].0, CountOf(ts[j]));
    forall i | j < i < |kvs| ensures kvs[i].0 != kvs[j].0 {
      assert kvs[i].0 == ts[i].0;
    }
    LastAssignmentWins(map[], kvs, j);
  }

  /** Line 32. */
  predicate IsCo2(elements: map<string, nat>)
  {
    elements == map["C" := 1, "O" := 2]
  }

  /** Line 44. */
  predicate IsHco3(elements: map<string, nat>)
  {
    elements == map["C" := 1, "H" := 1, "O" := 3]
  }

  /** The position of the last token naming `el`, or -1 when none does. */
  function LastToken(ts: seq<Token>, el: string): (j: int)
    ensures -1 <= j < |ts|
    ensures j >= 0 ==> ts[j].0 == el
    ensures forall i :: j < i < |ts| ==> ts[i].0 != el
  {
    if ts == [] then -1
    else if ts[|ts| - 1].0 == el then |ts| - 1
    else LastToken(ts[..|ts| - 1], el)
  }

  /** The last token naming `el` exists and carries the count n. */
  predicate LastCountIs(ts: seq<Token>, el: string, n: nat)
  {
    var j := LastToken(ts, el);
    j >= 0 && WellFormed(ts[j]) && CountOf(ts[j]) == n
  }

  /** The table of a formula holds exactly the elements the formula names,
      each with the count of its last occurrence. */
  lemma ElementsByLastToken(formula: string, el: string)
    ensures var ts := Tokens(formula); var j := LastToken(ts, el);
      && (el in Elements(formula) <==> j >= 0)
      && (j >= 0 ==> Elements(formula)[el] == CountOf(ts[j]))
  {
    var ts := Tokens(formula);
    var kvs := Counted(ts);
    var j := LastToken(ts, el);
    AssignedKeys(map[], kvs);
    if j >= 0 {
      LastAssignmentWins(map[], kvs, j);
    }
  }

  /** Every element the formula names is in `target`, and the last
      occurrence of each element of `target` has the count `target` gives. */
  predicate MatchesTable(ts: seq<Token>, target: map<string, nat>)
  {
    && (forall t :: t in ts ==> t.0 in target)
    && (forall el :: el in target ==> LastCountIs(ts, el, target[el]))
  }

  /** A formula whose tokens match `target` has `target` as its table. */
  lemma TableOfMatchingTokens(formula: string, target: map<string, nat>)
    requires MatchesTable(Tokens(formula), target)
    ensures Elements(formula) == target
  {
    var ts := Tokens(formula);
    var m := Elements(formula);
    forall el | el in m ensures el in target {
      ElementsByLastToken(formula, el);
      assert ts[LastToken(ts, el)] in ts;
    }
    forall el | el in target ensures el in m && m[el] == target[el] {
      ElementsByLastToken(formula, el);
    }
    assert m.Keys == target.Keys;
  }

  /** A formula's table equals `target` exactly when the formula's tokens
      match it. */
  lemma ElementTableIs(formula: string, target: map<string, nat>)
    ensures Elements(formula) == target <==> MatchesTable(Tokens(formula), target)
  {
    var ts := Tokens(formula);
    if Elements(formula) == target {
      forall t | t in ts ensures t.0 in target {
        var i :| 0 <= i < |ts| && ts[i] == t;
        ElementsByLastToken(formula, t.0);
      }
      forall el | el in target ensures LastCountIs(ts, el, target[el]) {
        ElementsByLastToken(formula, el);
      }
    } else if MatchesTable(ts, target) {
      TableOfMatchingTokens(formula, target);
    }
  }

  /** The tokens match the CO2 table exactly when they name only C and O,
      the last C has count 1 and the last O count 2. */
  lemma MatchesCo2(ts: seq<Token>)
    ensures MatchesTable(ts, map["C" := 1, "O" := 2]) <==>
      && (forall t :: t in ts ==> t.0 == "C" || t.0 == "O")
      && LastCountIs(ts, "C", 1) && LastCountIs(ts, "O", 2)
  {
    var target := map["C" := 1, "O" := 2];
    assert forall el :: el in target <==> el == "C" || el == "O";
    assert target["C"] == 1 && target["O"] == 2;
  }

  /** The tokens match the HCO3 table exactly when they name only C, H and
      O, the last C and H have count 1 and the last O count 3. */
  lemma MatchesHco3(ts: seq<Token>)
    ensures MatchesTable(ts, map["C" := 1, "H" := 1, "O" := 3]) <==>
      && (forall t :: t in ts ==> t.0 == "C" || t.0 == "H" || t.0 == "O")
      && LastCountIs(ts, "C", 1) && LastCountIs(ts, "H", 1) && LastCountIs(ts, "O", 3)
  {
    var target := map["C" := 1, "H" := 1, "O" := 3];
    assert forall el :: el in target <==> el == "C" || el == "H" || el == "O";
    assert target["C"] == 1 && target["H"] == 1 && target["O"] == 3;
  }

  /** `is_co2` holds exactly for a formula naming only C and O whose last C
      has count 1 and whose last O has count 2: `O2C` passes, while in
      `COO` the second O overwrites the first and the test fails. */
  lemma Co2Formula(formula: string)
    ensures var ts := Tokens(formula);
      IsCo2(Elements(formula)) <==>
        && (forall t :: t in ts ==> t.0 == "C" || t.0 == "O")
        && LastCountIs(ts, "C", 1) && LastCountIs(ts, "O", 2)
  {
    ElementTableIs(formula, map["C" := 1, "O" := 2]);
    MatchesCo2(Tokens(formula));
  }

  /** `is_hco3` holds exactly for a formula naming only C, H and O whose
      last C and last H have count 1 and whose last O has count 3. */
  lemma Hco3Formula(formula: string)
    ensures var ts := Tokens(formula);
      IsHco3(Elements(formula)) <==>
        && (forall t :: t in ts ==> t.0 == "C" || t.0 == "H" || t.0 == "O")
        && LastCountIs(ts, "C", 1) && LastCountIs(ts, "H", 1) && LastCountIs(ts, "O", 3)
  {
    ElementTableIs(formula, map["C" := 1, "H" := 1, "O" := 3]);
    MatchesHco3(Tokens(formula));
  }

  // ---------------------------------------------------------------------
  // get_medium_dict_from_media_db

  /** A row of the media database: (medium, compound). */
  type MediaRow = (string, string)

  /** The compounds listed for a medium. */
  function CompoundsOf(rows: seq<MediaRow>, mediumId: string): set<string>
  {
    set r | r in rows && r.0 == mediumId :: r.1
  }

  /** The exchange reaction id of a compound in a compartment. */
  function ExchangeId(compound: string, compartment: string): string
  {
    "EX_" + compound + "_" + compartment
  }

  /** Lines 60-65: ValueError for a medium that has no row, else one key
      per compound of the medium with the value 1000. */
  function GetMediumDict(rows: seq<MediaRow>, mediumId: string): (r: Result<map<string, int>, HelperError>)
    ensures r.Failure? <==> forall row :: row in rows ==> row.0 != mediumId
    ensures r.Failure? ==> r.error == MediumNotFound(mediumId)
    ensures r.Success? ==> forall c :: c in CompoundsOf(rows, mediumId) ==> ExchangeId(c, "e") in r.value
    ensures r.Success? ==> forall k :: k in r.value ==> exists c :: c in CompoundsOf(rows, mediumId) && k == ExchangeId(c, "e")
    ensures r.Success? ==> forall k :: k in r.value ==> r.value[k] == 1000
  {
    if forall row :: row in rows ==> row.0 != mediumId then Failure(MediumNotFound(mediumId))
    else
      var keys := set c | c in CompoundsOf(rows, mediumId) :: ExchangeId(c, "e");
      Success(map k | k in keys :: 1000)
  }

  // ---------------------------------------------------------------------
  // get_dict_of_metabolite_ids

  /** Lines 79-82: each entry's `bigg_id` mapped to its `name`, in order. */
  method GetDictOfMetaboliteIds(entries: seq<(string, string)>) returns (names: map<string, string>)
    ensures names == AssignAll(map[], entries)
  {
    names := map[];
    var i := 0;
    while i < |entries|
      invariant 0 <= i <= |entries|
      invariant AssignAll(names, entries[i..]) == AssignAll(map[], entries)
    {
      assert entries[i..][0] == entries[i] && entries[i..][1..] == entries[i + 1..];
      names := names[entries[i].0 := entries[i].1];
      i := i + 1;
    }
  }

  /** Every id of the entries has a name, the one of its last entry. */
  lemma MetaboliteNames(entries: seq<(string, string)>)
    ensures var names := AssignAll(map[], entries);
      && (forall id :: id in names <==> exists j :: 0 <= j < |entries| && entries[j].0 == id)
      && (forall j :: 0 <= j < |entries| && (forall i :: j < i < |entries| ==> entries[i].0 != entries[j].0) ==>
            entries[j].0 in names && names[entries[j].0] == entries[j].1)
  {
    AssignedKeys(map[], entries);
    forall j | 0 <= j < |entries| && (forall i :: j < i < |entries| ==> entries[i].0 != entries[j].0)
      ensures entries[j].0 in AssignAll(map[], entries) && AssignAll(map[], entries)[entries[j].0] == entries[j].1
    {
      LastAssignmentWins(map[], entries, j);
    }
  }

  // ---------------------------------------------------------------------
  // assign_name_to_met_id

  /** Lines 89-93: the second `_`-separated field, by its name when it has
      one; an id without `_` has no second field (IndexError). */
  function AssignNameToMetId(names: map<string, string>, metId: string): (r: Result<string, HelperError>)
    ensures r.Failure? <==> '_' !in metId
    ensures r.Failure? ==> r.error == NoSecondField(metId)
  {
    var parts := Split(metId, '_');
    SplitFirstField(metId, '_');
    if |parts| < 2 then Failure(NoSecondField(metId))
    else if parts[1] in names then Success(names[parts[1]])
    else Success(parts[1])
  }

  /** The field looked up is the text between the first `_` and the next
      one (or the end); its name is returned if it has one, else the field. */
  lemma NameOfSecondField(names: map<string, string>, metId: string)
    requires '_' in metId
    ensures var rest := metId[FirstIndexOf(metId, '_') + 1..];
      var field := rest[..FirstIndexOf(rest, '_')];
      AssignNameToMetId(names, metId) == Success(if field in names then names[field] else field)
  {
    SplitFirstField(metId, '_');
    var rest := metId[FirstIndexOf(metId, '_') + 1..];
    SplitFirstField(rest, '_');
  }
}
