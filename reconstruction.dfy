/** The `GEM` wrapper around a genome-scale metabolic model, reduced to the
    methods whose logic is its own: selecting and removing reactions,
    rewriting metabolite compartments, editing exchange bounds, and
    classifying exchanges as organic or inorganic by the formula of their
    metabolite. The model is a table of reactions plus the compartments of
    its metabolites; reaction ids are unique, as in the model library. */
module Reconstruction {

  import opened Wrappers
  import opened Strings
  import opened ReconstructionHelpers

  /** One reaction of the model. `compartments` are those of its
      metabolites; `formula` is the formula of its (first) metabolite, which
      matters only for exchanges. */
  datatype Reaction = Reaction(
    id: string,
    lowerBound: real,
    upperBound: real,
    compartments: set<string>,
    isExchange: bool,
    formula: Option<string>)

  datatype GemError = EmptyPair(index: nat)   // IndexError: `rxn_pair[0]` of an empty pair

  predicate DistinctIds(rs: seq<Reaction>)
  {
    forall i, j :: 0 <= i < j < |rs| ==> rs[i].id != rs[j].id
  }

  /** The reactions whose id is not listed, in order. */
  function WithoutIds(rs: seq<Reaction>, ids: set<string>): (r: seq<Reaction>)
    ensures forall x :: x in r <==> x in rs && x.id !in ids
    ensures DistinctIds(rs) ==> DistinctIds(r)
    ensures |r| <= |rs|
  {
    if rs == [] then []
    else
      var rest := WithoutIds(rs[1..], ids);
      assert forall x :: x in rs <==> x == rs[0] || x in rs[1..];
      if rs[0].id in ids then rest
      else
        assert DistinctIds(rs) ==> forall x :: x in rest ==> x.id != rs[0].id by {
          if DistinctIds(rs) {
            forall x | x in rest ensures x.id != rs[0].id {
              var j :| 0 <= j < |rs[1..]| && rs[1..][j] == x;
              assert rs[j + 1] == x;
            }
          }
        }
        [rs[0]] + rest
  }

  // ---------------------------------------------------------------------
  // remove_shuttle_reactions

  /** Lines 42-45: more than one compartment, not all of them allowed. */
  predicate IsShuttle(r: Reaction, allowed: set<string>)
  {
    |r.compartments| > 1 && !(r.compartments <= allowed)
  }

  /** Lines 39-46: the reactions selected for removal. */
  function ShuttleIds(rs: seq<Reaction>, allowed: set<string>): set<string>
  {
    set r | r in rs && IsShuttle(r, allowed) :: r.id
  }

  /** With unique ids, removing the selected reactions keeps exactly the
      reactions that are not shuttles, in their order. */
  lemma ShuttlesRemoved(rs: seq<Reaction>, allowed: set<string>)
    requires DistinctIds(rs)
    ensures var after := WithoutIds(rs, ShuttleIds(rs, allowed));
      && DistinctIds(after)
      && forall r :: r in after <==> r in rs && !IsShuttle(r, allowed)
  {
    var ids := ShuttleIds(rs, allowed);
    forall r | r in rs && r.id in ids ensures IsShuttle(r, allowed) {
      var r' :| r' in rs && IsShuttle(r', allowed) && r'.id == r.id;
      var i :| 0 <= i < |rs| && rs[i] == r;
      var j :| 0 <= j < |rs| && rs[j] == r';
      assert i == j;
    }
  }

  // ---------------------------------------------------------------------
  // prepare_for_carveme, compartment part

  /** Lines 118-119: prefix `C_` unless it is already there. */
  function CarvemeCompartment(c: string): (r: string)
    ensures StartsWith(r, "C_")
    ensures StartsWith(c, "C_") ==> r == c
    ensures !StartsWith(c, "C_") ==> r == "C_" + c
  {
    if StartsWith(c, "C_") then c else "C_" + c
  }

  /** Running the rewrite twice is running it once. */
  lemma CarvemeCompartmentIdempotent(c: string)
    ensures CarvemeCompartment(CarvemeCompartment(c)) == CarvemeCompartment(c)
  {
  }

  /** A reaction after its metabolites' compartments are rewritten: the
      model library derives a reaction's compartments from its metabolites,
      so they carry the new names; nothing else of the reaction changes. */
  function CarvemeReaction(r: Reaction): (x: Reaction)
    ensures x == r.(compartments := x.compartments)
    ensures forall c :: c in x.compartments <==> exists d :: d in r.compartments && c == CarvemeCompartment(d)
  {
    r.(compartments := set d | d in r.compartments :: CarvemeCompartment(d))
  }

  /** Every reaction of the table so rewritten, in order. */
  function CarvemeReactions(rs: seq<Reaction>): (r: seq<Reaction>)
    ensures |r| == |rs| && forall i :: 0 <= i < |rs| ==> r[i] == CarvemeReaction(rs[i])
  {
    seq(|rs|, i requires 0 <= i < |rs| => CarvemeReaction(rs[i]))
  }

  /** After the rewrite every compartment of a reaction starts with `C_`, so
      against allowed names without that prefix (the default `c`, `e`, `p`)
      every reaction with more than one compartment counts as a shuttle. */
  lemma PreparedShuttles(r: Reaction, allowed: set<string>)
    requires forall a :: a in allowed ==> !StartsWith(a, "C_")
    ensures forall c :: c in CarvemeReaction(r).compartments ==> StartsWith(c, "C_")
    ensures IsShuttle(CarvemeReaction(r), allowed) <==> |CarvemeReaction(r).compartments| > 1
  {
    var x := CarvemeReaction(r);
    if |x.compartments| > 1 {
      var c :| c in x.compartments;
      assert c !in allowed;
    }
  }

  /** Rewriting keeps the ids and the bounds of every reaction. */
  lemma CarvemeReactionsValid(rs: seq<Reaction>)
    requires DistinctIds(rs) && AllOrdered(rs)
    ensures DistinctIds(CarvemeReactions(rs)) && AllOrdered(CarvemeReactions(rs))
  {
    var xs := CarvemeReactions(rs);
    forall y | y in xs ensures Ordered(y) {
      var k :| 0 <= k < |xs| && xs[k] == y;
      assert rs[k] in rs;
    }
  }

  // ---------------------------------------------------------------------
  // open_exchanges, close_exchanges, open_inorganic_exchanges

  /** The model library keeps a reaction's lower bound at or below its
      upper bound. */
  predicate Ordered(r: Reaction)
  {
    r.lowerBound <= r.upperBound
  }

  predicate AllOrdered(rs: seq<Reaction>)
  {
    forall x :: x in rs ==> Ordered(x)
  }

  /** The ValueError the library's bound setters raise when a lower bound
      would exceed the upper bound. */
  datatype BoundError = BoundsCrossed(id: string, lower: real, upper: real)

  /** A reaction after an attempted edit of its bounds, and the error that
      stopped the edit, if any. */
  datatype Outcome = Outcome(reaction: Reaction, error: Option<BoundError>)

  /** The library's `lower_bound` setter: a value above the upper bound
      raises and changes nothing. */
  function SetLower(r: Reaction, v: real): Outcome
  {
    if v > r.upperBound then Outcome(r, Some(BoundsCrossed(r.id, v, r.upperBound)))
    else Outcome(r.(lowerBound := v), None)
  }

  /** The library's `upper_bound` setter: a value below the lower bound
      raises and changes nothing. */
  function SetUpper(r: Reaction, v: real): Outcome
  {
    if v < r.lowerBound then Outcome(r, Some(BoundsCrossed(r.id, r.lowerBound, v)))
    else Outcome(r.(upperBound := v), None)
  }

  /** Lines 227-228 and 234-235: the lower bound is set first, then the
      upper bound, so a failing second step leaves the first in place. */
  function SetBounds(r: Reaction, lb: real, ub: real): Outcome
  {
    var o := SetLower(r, lb);
    if o.error.Some? then o else SetUpper(o.reaction, ub)
  }

  /** Setting both bounds fails exactly when the new lower bound exceeds
      the old upper bound or the new bounds cross; on success both are
      set, and when only the second step fails the lower bound is set.
      Every outcome keeps the bounds ordered. */
  lemma SetBoundsEffect(r: Reaction, lb: real, ub: real)
    ensures var o := SetBounds(r, lb, ub);
      && (o.error.Some? <==> lb > r.upperBound || ub < lb)
      && (o.error.None? ==> o.reaction == r.(lowerBound := lb, upperBound := ub))
      && (lb > r.upperBound ==> o.reaction == r)
      && (lb <= r.upperBound && ub < lb ==> o.reaction == r.(lowerBound := lb))
      && (Ordered(r) ==> Ordered(o.reaction))
  {
  }

  /** Line 149. */
  function OpenedExchange(r: Reaction): Outcome
  {
    if r.isExchange then SetLower(r, -1000.0) else Outcome(r, None)
  }

  /** Lines 159-160: the test is on the id, not on the exchange flag. */
  function ClosedExchange(r: Reaction): Outcome
  {
    if StartsWith(r.id, "EX_") then SetLower(r, 0.0) else Outcome(r, None)
  }

  /** Lines 226-237 for one reaction. */
  function InorganicOpened(r: Reaction, lb: real, ub: real, included: Option<seq<string>>): Outcome
  {
    if !r.isExchange then Outcome(r, None)
    else if included.Some? && r.id in included.value then SetBounds(r, lb, ub)
    else if r.formula.None? then Outcome(r, None)
    else if "C" !in Elements(r.formula.value) then SetBounds(r, lb, ub)
    else SetLower(r, 0.0)
  }

  /** The edit of lines 226-237 with fixed bounds and inclusion list. */
  function InorganicEdit(lb: real, ub: real, included: Option<seq<string>>): Reaction -> Outcome
  {
    x => InorganicOpened(x, lb, ub, included)
  }

  /** The edit keeps every reaction's id and ordered bounds. */
  lemma InorganicEditKeeps(lb: real, ub: real, included: Option<seq<string>>)
    ensures var f := InorganicEdit(lb, ub, included);
      forall x :: f(x).reaction.id == x.id && (Ordered(x) ==> Ordered(f(x).reaction))
  {
    forall x ensures InorganicOpened(x, lb, ub, included).reaction.id == x.id
      && (Ordered(x) ==> Ordered(InorganicOpened(x, lb, ub, included).reaction))
    {
      SetBoundsEffect(x, lb, ub);
    }
  }

  /** The index of the first reaction whose edit raises, or the length
      when none does. */
  function FirstFailing(rs: seq<Reaction>, f: Reaction -> Outcome): (j: nat)
    ensures j <= |rs|
    ensures forall k :: 0 <= k < j ==> f(rs[k]).error.None?
    ensures j < |rs| ==> f(rs[j]).error.Some?
  {
    if rs == [] || f(rs[0]).error.Some? then 0
    else
      var j := FirstFailing(rs[1..], f);
      assert forall k :: 1 <= k <= j ==> rs[k] == rs[1..][k - 1];
      1 + j
  }

  /** The reactions as a loop leaves them, and its error. */
  datatype Swept = Swept(reactions: seq<Reaction>, error: Option<BoundError>)

  /** A loop editing the reactions one at a time, in order, that stops at
      the first edit that raises: every reaction up to and including the
      failing one carries its edit, the later ones are untouched, and the
      error is that of the failing edit. */
  function Sweep(rs: seq<Reaction>, f: Reaction -> Outcome): (r: Swept)
    ensures |r.reactions| == |rs|
    ensures var j := FirstFailing(rs, f);
      && r.error == (if j < |rs| then f(rs[j]).error else None)
      && forall k :: 0 <= k < |rs| ==> r.reactions[k] == (if k <= j then f(rs[k]).reaction else rs[k])
  {
    if rs == [] then Swept([], None)
    else
      var o := f(rs[0]);
      if o.error.Some? then Swept([o.reaction] + rs[1..], o.error)
      else
        var rest := Sweep(rs[1..], f);
        assert forall k :: 1 <= k < |rs| ==> rs[k] == rs[1..][k - 1];
        Swept([o.reaction] + rest.reactions, rest.error)
  }

  /** A loop that edited every reaction without error has run to the
      end. */
  lemma SweptToEnd(rs: seq<Reaction>, f: Reaction -> Outcome, cur: seq<Reaction>)
    requires |cur| == |rs| && FirstFailing(rs, f) == |rs|
    requires forall k :: 0 <= k < |rs| ==> cur[k] == f(rs[k]).reaction
    ensures Sweep(rs, f) == Swept(cur, None)
  {
    assert Sweep(rs, f).reactions == cur;
  }

  /** A loop that edited reactions up to i, where the edit raised, and
      left the rest untouched, has stopped where `Sweep` stops. */
  lemma SweptToFailure(rs: seq<Reaction>, f: Reaction -> Outcome, cur: seq<Reaction>, i: int)
    requires |cur| == |rs| && 0 <= i < |rs| && i <= FirstFailing(rs, f) && f(rs[i]).error.Some?
    requires forall k :: 0 <= k <= i ==> cur[k] == f(rs[k]).reaction
    requires forall k :: i < k < |rs| ==> cur[k] == rs[k]
    ensures Sweep(rs, f) == Swept(cur, f(rs[i]).error)
  {
    assert FirstFailing(rs, f) == i;
    assert Sweep(rs, f).reactions == cur;
  }

  /** A loop fails exactly when some edit raises. */
  lemma SweepFails(rs: seq<Reaction>, f: Reaction -> Outcome)
    ensures Sweep(rs, f).error.None? <==> forall x :: x in rs ==> f(x).error.None?
  {
    var j := FirstFailing(rs, f);
    if j < |rs| {
      assert rs[j] in rs;
    } else {
      forall x | x in rs ensures f(x).error.None? {
        var k :| 0 <= k < |rs| && rs[k] == x;
      }
    }
  }

  /** A loop of edits that keep ids and ordered bounds, wherever it stops,
      leaves ids unique and bounds ordered. */
  lemma SweptValid(rs: seq<Reaction>, f: Reaction -> Outcome)
    requires DistinctIds(rs) && AllOrdered(rs)
    requires forall x :: f(x).reaction.id == x.id && (Ordered(x) ==> Ordered(f(x).reaction))
    ensures DistinctIds(Sweep(rs, f).reactions) && AllOrdered(Sweep(rs, f).reactions)
  {
    var s := Sweep(rs, f).reactions;
    assert forall k :: 0 <= k < |rs| ==> s[k].id == rs[k].id && Ordered(rs[k]);
    forall y | y in s ensures Ordered(y) {
      var k :| 0 <= k < |s| && s[k] == y;
    }
  }

  /** One reaction opened: it fails exactly for an exchange whose upper
      bound is below -1000; otherwise an exchange gets lower bound -1000
      and opening it again changes nothing. */
  lemma OpenedOnce(x: Reaction)
    ensures var o := OpenedExchange(x);
      && (o.error.Some? <==> x.isExchange && x.upperBound < -1000.0)
      && (o.error.Some? ==> o == Outcome(x, Some(BoundsCrossed(x.id, -1000.0, x.upperBound))))
      && (o.error.None? ==> o.reaction == (if x.isExchange then x.(lowerBound := -1000.0) else x))
      && (o.error.None? ==> OpenedExchange(o.reaction) == Outcome(o.reaction, None))
  {
  }

  /** Opening fails exactly when some exchange has an upper bound below
      -1000, and then names the first one. On success every exchange has
      lower bound -1000, nothing else changes, and opening again changes
      nothing. */
  lemma OpenExchangesEffect(rs: seq<Reaction>)
    ensures var s := Sweep(rs, OpenedExchange);
      && (s.error.None? <==> forall x :: x in rs && x.isExchange ==> -1000.0 <= x.upperBound)
      && (s.error.Some? ==> var j := FirstFailing(rs, OpenedExchange);
            j < |rs| && rs[j].isExchange && s.error == Some(BoundsCrossed(rs[j].id, -1000.0, rs[j].upperBound)))
      && (s.error.None? ==>
            && (forall i :: 0 <= i < |rs| ==> s.reactions[i] == (if rs[i].isExchange then rs[i].(lowerBound := -1000.0) else rs[i]))
            && Sweep(s.reactions, OpenedExchange) == s)
  {
    var s := Sweep(rs, OpenedExchange);
    SweepFails(rs, OpenedExchange);
    forall x | x in rs ensures OpenedExchange(x).error.Some? <==> x.isExchange && x.upperBound < -1000.0 {
      OpenedOnce(x);
    }
    var j := FirstFailing(rs, OpenedExchange);
    if j < |rs| {
      OpenedOnce(rs[j]);
    }
    if s.error.None? {
      forall i | 0 <= i < |rs|
        ensures s.reactions[i] == (if rs[i].isExchange then rs[i].(lowerBound := -1000.0) else rs[i])
        ensures OpenedExchange(s.reactions[i]) == Outcome(s.reactions[i], None)
      {
        OpenedOnce(rs[i]);
      }
      SweepUnchanged(s.reactions, OpenedExchange);
    }
  }

  /** A loop whose every edit leaves its reaction as it is, without error,
      changes nothing. */
  lemma SweepUnchanged(rs: seq<Reaction>, f: Reaction -> Outcome)
    requires forall k :: 0 <= k < |rs| ==> f(rs[k]) == Outcome(rs[k], None)
    ensures Sweep(rs, f) == Swept(rs, None)
  {
    var s := Sweep(rs, f);
    assert s.reactions == rs;
  }

  /** One reaction closed: it fails exactly for an `EX_` reaction with a
      negative upper bound; otherwise such a reaction gets lower bound 0
      and closing it again changes nothing. */
  lemma ClosedOnce(x: Reaction)
    ensures var o := ClosedExchange(x);
      && (o.error.Some? <==> StartsWith(x.id, "EX_") && x.upperBound < 0.0)
      && (o.error.Some? ==> o == Outcome(x, Some(BoundsCrossed(x.id, 0.0, x.upperBound))))
      && (o.error.None? ==> o.reaction == (if StartsWith(x.id, "EX_") then x.(lowerBound := 0.0) else x))
      && (o.error.None? ==> ClosedExchange(o.reaction) == Outcome(o.reaction, None))
  {
  }

  /** Closing fails exactly when some reaction whose id starts with `EX_`
      has a negative upper bound, and then names the first one. On success
      those reactions have lower bound 0, nothing else changes, and closing
      again changes nothing. */
  lemma CloseExchangesEffect(rs: seq<Reaction>)
    ensures var s := Sweep(rs, ClosedExchange);
      && (s.error.None? <==> forall x :: x in rs && StartsWith(x.id, "EX_") ==> 0.0 <= x.upperBound)
      && (s.error.Some? ==> var j := FirstFailing(rs, ClosedExchange);
            j < |rs| && StartsWith(rs[j].id, "EX_") && s.error == Some(BoundsCrossed(rs[j].id, 0.0, rs[j].upperBound)))
      && (s.error.None? ==>
            && (forall i :: 0 <= i < |rs| ==> s.reactions[i] == (if StartsWith(rs[i].id, "EX_") then rs[i].(lowerBound := 0.0) else rs[i]))
            && Sweep(s.reactions, ClosedExchange) == s)
  {
    var s := Sweep(rs, ClosedExchange);
    SweepFails(rs, ClosedExchange);
    forall x | x in rs ensures ClosedExchange(x).error.Some? <==> StartsWith(x.id, "EX_") && x.upperBound < 0.0 {
      ClosedOnce(x);
    }
    var j := FirstFailing(rs, ClosedExchange);
    if j < |rs| {
      ClosedOnce(rs[j]);
    }
    if s.error.None? {
      forall i | 0 <= i < |rs|
        ensures s.reactions[i] == (if StartsWith(rs[i].id, "EX_") then rs[i].(lowerBound := 0.0) else rs[i])
        ensures ClosedExchange(s.reactions[i]) == Outcome(s.reactions[i], None)
      {
        ClosedOnce(rs[i]);
      }
      SweepUnchanged(s.reactions, ClosedExchange);
    }
  }

  /** The rules of lines 226-237: an included exchange gets both bounds; an
      exchange whose formula has no carbon gets both bounds; one whose
      formula has carbon, CO2 and HCO3 among them, gets lower bound 0 and
      keeps its upper bound; an exchange without formula and any other
      reaction are untouched. Only bounds ever change, and an edit fails
      exactly when the bounds it sets would cross. */
  lemma InorganicOpenedRules(r: Reaction, lb: real, ub: real, included: Option<seq<string>>)
    ensures var o := InorganicOpened(r, lb, ub, included); var x := o.reaction;
      && x.id == r.id && x.compartments == r.compartments && x.isExchange == r.isExchange && x.formula == r.formula
      && (Ordered(r) ==> Ordered(x))
      && (!r.isExchange ==> o == Outcome(r, None))
      && (r.isExchange && included.Some? && r.id in included.value ==> o == SetBounds(r, lb, ub))
      && (r.isExchange && !(included.Some? && r.id in included.value) ==>
            && (r.formula.None? ==> o == Outcome(r, None))
            && (r.formula.Some? && "C" !in Elements(r.formula.value) ==> o == SetBounds(r, lb, ub))
            && (r.formula.Some? && "C" in Elements(r.formula.value) ==>
                  && (o.error.Some? <==> r.upperBound < 0.0)
                  && (o.error.None? ==> x.lowerBound == 0.0 && x.upperBound == r.upperBound)))
      && (r.isExchange && !(included.Some? && r.id in included.value) && r.formula.Some?
          && (IsCo2(Elements(r.formula.value)) || IsHco3(Elements(r.formula.value))) ==>
            (o.error.None? ==> x.lowerBound == 0.0 && x.upperBound == r.upperBound))
  {
    SetBoundsEffect(r, lb, ub);
  }
  // ---------------------------------------------------------------------
  // get_organic_exchanges, get_inorganic_exchanges

  /** Lines 182-186. */
  predicate IsOrganic(elements: map<string, nat>)
  {
    !IsCo2(elements) && !IsHco3(elements) && "C" in elements
  }

  /** Lines 201-205. */
  predicate IsInorganic(elements: map<string, nat>)
  {
    IsCo2(elements) || IsHco3(elements) || "C" !in elements
  }

  /** The ids of the exchanges with a formula whose elements pass test. */
  function ExchangeIdsWhere(rs: seq<Reaction>, organic: bool): (r: seq<string>)
    ensures forall id :: id in r <==> exists x :: x in rs && x.id == id && x.isExchange && x.formula.Some?
                                           && (if organic then IsOrganic(Elements(x.formula.value)) else IsInorganic(Elements(x.formula.value)))
  {
    if rs == [] then []
    else
      var x := rs[0];
      var rest := ExchangeIdsWhere(rs[1..], organic);
      assert forall y :: y in rs <==> y == x || y in rs[1..];
      if x.isExchange && x.formula.Some?
         && (if organic then IsOrganic(Elements(x.formula.value)) else IsInorganic(Elements(x.formula.value)))
      then [x.id] + rest
      else rest
  }

  /** Organic means a formula with carbon that is neither CO2 nor HCO3;
      the two tests are each other's negation. */
  lemma OrganicIsNotInorganic(elements: map<string, nat>)
    ensures IsOrganic(elements) <==> !IsInorganic(elements)
    ensures IsCo2(elements) || IsHco3(elements) ==> IsInorganic(elements)
  {
  }

  /** With unique ids, every exchange with a formula is listed by exactly
      one of the two queries, and an exchange without formula, or a
      reaction that is not an exchange, by neither. */
  lemma ExchangesPartitioned(rs: seq<Reaction>, x: Reaction)
    requires DistinctIds(rs) && x in rs
    ensures x.isExchange && x.formula.Some? ==> (x.id in ExchangeIdsWhere(rs, true) <==> x.id !in ExchangeIdsWhere(rs, false))
    ensures x.isExchange && x.formula.Some? ==> (x.id in ExchangeIdsWhere(rs, true) <==> IsOrganic(Elements(x.formula.value)))
    ensures !(x.isExchange && x.formula.Some?) ==> x.id !in ExchangeIdsWhere(rs, true) && x.id !in ExchangeIdsWhere(rs, false)
  {
    forall y | y in rs && y.id == x.id ensures y == x {
      var i :| 0 <= i < |rs| && rs[i] == x;
      var j :| 0 <= j < |rs| && rs[j] == y;
      assert i == j;
    }
    if x.formula.Some? {
      OrganicIsNotInorganic(Elements(x.formula.value));
    }
  }

  // ---------------------------------------------------------------------
  // remove_duplicated_reactions

  /** Line 168: the first id of every pair. */
  function FirstIds(pairs: seq<seq<string>>): (r: Result<seq<string>, GemError>)
    ensures r.Success? <==> forall k :: 0 <= k < |pairs| ==> pairs[k] != []
    ensures r.Failure? ==> var k := r.error.index; k < |pairs| && pairs[k] == [] && forall j :: 0 <= j < k ==> pairs[j] != []
    ensures r.Success? ==> |r.value| == |pairs| && forall k :: 0 <= k < |pairs| ==> r.value[k] == pairs[k][0]
  {
    if pairs == [] then Success([])
    else if pairs[0] == [] then Failure(EmptyPair(0))
    else
      var rest := FirstIds(pairs[1..]);
      assert forall k :: 1 <= k < |pairs| ==> pairs[k] == pairs[1..][k - 1];
      if rest.Failure? then Failure(EmptyPair(rest.error.index + 1))
      else Success([pairs[0][0]] + rest.value)
  }

  /** The second id of a pair is removed only when it is also the first
      id of some pair; every first id is gone afterwards. */
  lemma DuplicatesRemoved(rs: seq<Reaction>, pairs: seq<seq<string>>)
    requires FirstIds(pairs).Success?
    ensures var after := WithoutIds(rs, set id | id in FirstIds(pairs).value);
      && (forall k :: 0 <= k < |pairs| ==> forall x :: x in after ==> x.id != pairs[k][0])
      && (forall k, x :: 0 <= k < |pairs| && |pairs[k]| > 1 && x in rs && x.id == pairs[k][1] ==>
            (x in after <==> forall j :: 0 <= j < |pairs| ==> pairs[j][0] != x.id))
  {
    var firsts := FirstIds(pairs).value;
    forall k | 0 <= k < |pairs| ensures pairs[k][0] in firsts {
      assert firsts[k] == pairs[k][0];
    }
  }

  // ---------------------------------------------------------------------
  // The model object

  class Gem {
    var reactions: seq<Reaction>
    var metaboliteCompartments: seq<string>

    /** Reaction ids are unique and bounds ordered, as the model library
        keeps them. */
    predicate Valid()
      reads this
    {
      DistinctIds(reactions) && AllOrdered(reactions)
    }

    constructor (reactions: seq<Reaction>, metaboliteCompartments: seq<string>)
      requires DistinctIds(reactions) && AllOrdered(reactions)
      ensures Valid()
      ensures this.reactions == reactions && this.metaboliteCompartments == metaboliteCompartments
    {
      this.reactions := reactions;
      this.metaboliteCompartments := metaboliteCompartments;
    }

    /** `remove_reactions` by id. Removing orphaned metabolites and genes
        is not part of this model. */
    method RemoveReactions(ids: set<string>)
      requires Valid()
      modifies this
      ensures Valid()
      ensures reactions == WithoutIds(old(reactions), ids)
      ensures metaboliteCompartments == old(metaboliteCompartments)
    {
      reactions := WithoutIds(reactions, ids);
    }

    /** Lines 29-49. */
    method RemoveShuttleReactions(allowed: set<string> := {"c", "e", "p"})
      requires Valid()
      modifies this
      ensures Valid()
      ensures forall r :: r in reactions <==> r in old(reactions) && !IsShuttle(r, allowed)
      ensures reactions == WithoutIds(old(reactions), ShuttleIds(old(reactions), allowed))
      ensures metaboliteCompartments == old(metaboliteCompartments)
    {
      ShuttlesRemoved(reactions, allowed);
      RemoveReactions(ShuttleIds(reactions, allowed));
    }

    /** Lines 117-119: each metabolite's compartment rewritten in place. */
    method PrepareForCarveme()
      requires Valid()
      modifies this
      ensures Valid()
      ensures |metaboliteCompartments| == |old(metaboliteCompartments)|
      ensures forall i :: 0 <= i < |metaboliteCompartments| ==>
        metaboliteCompartments[i] == CarvemeCompartment(old(metaboliteCompartments)[i])
      ensures forall i :: 0 <= i < |metaboliteCompartments| ==> StartsWith(metaboliteCompartments[i], "C_")
      ensures reactions == CarvemeReactions(old(reactions))
    {
      var i := 0;
      while i < |metaboliteCompartments|
        invariant 0 <= i <= |metaboliteCompartments| == |old(metaboliteCompartments)|
        invariant forall k :: 0 <= k < i ==> metaboliteCompartments[k] == CarvemeCompartment(old(metaboliteCompartments)[k])
        invariant forall k :: i <= k < |metaboliteCompartments| ==> metaboliteCompartments[k] == old(metaboliteCompartments)[k]
        invariant reactions == old(reactions)
      {
        var c := metaboliteCompartments[i];
        if !StartsWith(c, "C_") {
          metaboliteCompartments := metaboliteCompartments[i := "C_" + c];
        }
        i := i + 1;
      }
      // The reactions read their compartments from their metabolites.
      CarvemeReactionsValid(reactions);
      reactions := CarvemeReactions(reactions);
    }

    /** Lines 148-149: the loop stops at the first exchange whose upper
        bound is below -1000. */
    method OpenExchanges() returns (err: Option<BoundError>)
      requires Valid()
      modifies this
      ensures Valid()
      ensures Swept(reactions, err) == Sweep(old(reactions), OpenedExchange)
      ensures metaboliteCompartments == old(metaboliteCompartments)
    {
      ghost var rs := reactions;
      SweptValid(rs, OpenedExchange);
      var i := 0;
      while i < |reactions|
        invariant 0 <= i <= |reactions| == |rs|
        invariant i <= FirstFailing(rs, OpenedExchange)
        invariant forall k :: 0 <= k < i ==> reactions[k] == OpenedExchange(rs[k]).reaction
        invariant forall k :: i <= k < |reactions| ==> reactions[k] == rs[k]
        invariant metaboliteCompartments == old(metaboliteCompartments)
      {
        var x := reactions[i];
        if x.isExchange {
          if -1000.0 > x.upperBound {
            err := Some(BoundsCrossed(x.id, -1000.0, x.upperBound));
            SweptToFailure(rs, OpenedExchange, reactions, i);
            return;
          }
          reactions := reactions[i := x.(lowerBound := -1000.0)];
        }
        i := i + 1;
      }
      err := None;
      SweptToEnd(rs, OpenedExchange, reactions);
    }

    /** Lines 158-160: the loop stops at the first `EX_` reaction whose
        upper bound is negative. */
    method CloseExchanges() returns (err: Option<BoundError>)
      requires Valid()
      modifies this
      ensures Valid()
      ensures Swept(reactions, err) == Sweep(old(reactions), ClosedExchange)
      ensures metaboliteCompartments == old(metaboliteCompartments)
    {
      ghost var rs := reactions;
      SweptValid(rs, ClosedExchange);
      var i := 0;
      while i < |reactions|
        invariant 0 <= i <= |reactions| == |rs|
        invariant i <= FirstFailing(rs, ClosedExchange)
        invariant forall k :: 0 <= k < i ==> reactions[k] == ClosedExchange(rs[k]).reaction
        invariant forall k :: i <= k < |reactions| ==> reactions[k] == rs[k]
        invariant metaboliteCompartments == old(metaboliteCompartments)
      {
        var x := reactions[i];
        if StartsWith(x.id, "EX_") {
          if 0.0 > x.upperBound {
            err := Some(BoundsCrossed(x.id, 0.0, x.upperBound));
            SweptToFailure(rs, ClosedExchange, reactions, i);
            return;
          }
          reactions := reactions[i := x.(lowerBound := 0.0)];
        }
        i := i + 1;
      }
      err := None;
      SweptToEnd(rs, ClosedExchange, reactions);
    }

    /** Lines 168-169: an empty pair raises before anything is removed. */
    method RemoveDuplicatedReactions(pairs: seq<seq<string>>) returns (err: Option<GemError>)
      requires Valid()
      modifies this
      ensures Valid()
      ensures err.Some? <==> FirstIds(pairs).Failure?
      ensures err.Some? ==> err.value == FirstIds(pairs).error && reactions == old(reactions)
      ensures err.None? ==> reactions == WithoutIds(old(reactions), set id | id in FirstIds(pairs).value)
      ensures metaboliteCompartments == old(metaboliteCompartments)
    {
      var firsts := FirstIds(pairs);
      if firsts.Failure? {
        return Some(firsts.error);
      }
      RemoveReactions(set id | id in firsts.value);
      err := None;
    }

    /** Lines 177-188 (organic) and 196-207 (inorganic): the loop over the
        exchanges, extracting the elements of each formula. */
    method ExchangesWhere(organic: bool) returns (ids: seq<string>)
      ensures ids == ExchangeIdsWhere(reactions, organic)
    {
      ids := [];
      var i := |reactions|;
      while i > 0
        invariant 0 <= i <= |reactions|
        invariant ids == ExchangeIdsWhere(reactions[i..], organic)
      {
        i := i - 1;
        var x := reactions[i];
        assert reactions[i..][0] == x && reactions[i..][1..] == reactions[i + 1..];
        if x.isExchange && x.formula.Some? {
          var elements := ExtractChemicalElements(x.formula.value);
          if (if organic then IsOrganic(elements) else IsInorganic(elements)) {
            ids := [x.id] + ids;
          }
        }
      }
    }

    /** Lines 171-188. */
    method GetOrganicExchanges() returns (ids: seq<string>)
      ensures ids == ExchangeIdsWhere(reactions, true)
    {
      ids := ExchangesWhere(true);
    }

    /** Lines 190-207. */
    method GetInorganicExchanges() returns (ids: seq<string>)
      ensures ids == ExchangeIdsWhere(reactions, false)
    {
      ids := ExchangesWhere(false);
    }

    /** Lines 209-237, with the defaults of lines 211-213: the loop stops
        at the first exchange whose new bounds would cross. */
    method OpenInorganicExchanges(lb: real := -1000.0, ub: real := 1000.0, included: Option<seq<string>> := None)
      returns (err: Option<BoundError>)
      requires Valid()
      modifies this
      ensures Valid()
      ensures Swept(reactions, err) == Sweep(old(reactions), InorganicEdit(lb, ub, included))
      ensures metaboliteCompartments == old(metaboliteCompartments)
    {
      ghost var rs := reactions;
      ghost var f := InorganicEdit(lb, ub, included);
      InorganicEditKeeps(lb, ub, included);
      SweptValid(rs, f);
      var i := 0;
      while i < |reactions|
        invariant 0 <= i <= |reactions| == |rs|
        invariant i <= FirstFailing(rs, f)
        invariant forall k :: 0 <= k < i ==> reactions[k] == f(rs[k]).reaction
        invariant forall k :: i <= k < |reactions| ==> reactions[k] == rs[k]
        invariant metaboliteCompartments == old(metaboliteCompartments)
      {
        var o := InorganicStep(reactions[i], lb, ub, included);
        assert o == f(rs[i]);
        reactions := reactions[i := o.reaction];
        if o.error.Some? {
          err := o.error;
          SweptToFailure(rs, f, reactions, i);
          return;
        }
        i := i + 1;
      }
      err := None;
      SweptToEnd(rs, f, reactions);
    }
  }

  /** Lines 226-237 for one reaction: the branches of the loop body. */
  method InorganicStep(x: Reaction, lb: real, ub: real, included: Option<seq<string>>) returns (o: Outcome)
    ensures o == InorganicOpened(x, lb, ub, included)
  {
    o := Outcome(x, None);
    if x.isExchange {
      if included.Some? && x.id in included.value {
        o := SetBoundsOf(x, lb, ub);
      } else if x.formula.Some? {
        var elements := ExtractChemicalElements(x.formula.value);
        if "C" !in elements {
          o := SetBoundsOf(x, lb, ub);
        } else if 0.0 > x.upperBound {
          o := Outcome(x, Some(BoundsCrossed(x.id, 0.0, x.upperBound)));
        } else {
          o := Outcome(x.(lowerBound := 0.0), None);
        }
      }
    }
  }

  /** Lines 227-228 and 234-235: the two setter calls, lower bound first. */
  method SetBoundsOf(x: Reaction, lb: real, ub: real) returns (o: Outcome)
    ensures o == SetBounds(x, lb, ub)
  {
    if lb > x.upperBound {
      return Outcome(x, Some(BoundsCrossed(x.id, lb, x.upperBound)));
    }
    var y := x.(lowerBound := lb);
    if ub < y.lowerBound {
      return Outcome(y, Some(BoundsCrossed(x.id, lb, ub)));
    }
    o := Outcome(y.(upperBound := ub), None);
  }
}
