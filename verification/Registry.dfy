/** Search-site arbitration in the extractor registry (`crates/rdlp-extractor/src/lib.rs`). */
module Registry {
  import opened Wrappers

  datatype SearchExtractor = SearchExtractor(name: string, isPlugin: bool, overridesBuiltin: bool, priority: int)

  /** Registrations in order; a position stands for the shared object registered there. */
  type Registrations = seq<SearchExtractor>

  // ---- Names ----------------------------------------------------------------------------------------------

  function AsciiLower(c: char): char {
    if 'A' <= c <= 'Z' then c - 'A' + 'a' else c
  }

  /** `str::eq_ignore_ascii_case`. */
  predicate EqIgnoreAsciiCase(a: string, b: string) {
    |a| == |b| && forall k :: 0 <= k < |a| ==> AsciiLower(a[k]) == AsciiLower(b[k])
  }

  /** Two characters are the same letter in its two cases. */
  predicate CaseOf(upper: char, lower: char) {
    'A' <= upper <= 'Z' && lower as int == upper as int + 32
  }

  /** Names are compared up to the case of the letters A to Z, and of no other characters. */
  lemma NamesMatchExactly(a: string, b: string)
    ensures EqIgnoreAsciiCase(a, b) <==>
      |a| == |b| && forall k :: 0 <= k < |a| ==> a[k] == b[k] || CaseOf(a[k], b[k]) || CaseOf(b[k], a[k])
  {
    if |a| == |b| {
      forall k | 0 <= k < |a|
        ensures AsciiLower(a[k]) == AsciiLower(b[k]) <==> a[k] == b[k] || CaseOf(a[k], b[k]) || CaseOf(b[k], a[k])
      {
        SameLetter(a[k], b[k]);
      }
    }
  }

  lemma SameLetter(c: char, d: char)
    ensures AsciiLower(c) == AsciiLower(d) <==> c == d || CaseOf(c, d) || CaseOf(d, c)
  {
  }

  // ---- The pipelines --------------------------------------------------------------------------------------

  /** The positions among `order` whose extractor satisfies `p`. */
  function Filter(reg: Registrations, order: seq<nat>, p: SearchExtractor -> bool): (kept: seq<nat>)
    requires forall k :: 0 <= k < |order| ==> order[k] < |reg|
    ensures |kept| <= |order|
    ensures forall k :: 0 <= k < |kept| ==> kept[k] in order && p(reg[kept[k]])
    ensures forall x: nat :: x in order && p(reg[x]) ==> x in kept
  {
    if order == [] then []
    else
      var kept := Filter(reg, order[1..], p);
      assert order == [order[0]] + order[1..];
      if p(reg[order[0]]) then [order[0]] + kept else kept
  }

  function Positions(n: nat): (order: seq<nat>)
    ensures |order| == n && forall k :: 0 <= k < n ==> order[k] == k
  {
    seq(n, k => k)
  }

  function Reverse(s: seq<nat>): (r: seq<nat>)
    ensures |r| == |s| && forall k :: 0 <= k < |s| ==> r[k] == s[|s| - 1 - k]
  {
    seq(|s|, k requires 0 <= k < |s| => s[|s| - 1 - k])
  }

  /** `max_by_key` on the priorities: the last of the greatest. */
  function MaxByPriority(reg: Registrations, order: seq<nat>): Option<nat>
    requires forall k :: 0 <= k < |order| ==> order[k] < |reg|
    ensures MaxByPriority(reg, order).Some? ==> MaxByPriority(reg, order).value < |reg|
  {
    if order == [] then None
    else
      var last := order[|order| - 1];
      match MaxByPriority(reg, order[..|order| - 1])
      case None => Some(last)
      case Some(best) => Some(if reg[last].priority >= reg[best].priority then last else best)
  }

  function Candidates(reg: Registrations, name: string): seq<nat> {
    Filter(reg, Positions(|reg|), (e: SearchExtractor) => EqIgnoreAsciiCase(e.name, name))
  }

  function FirstBuiltin(reg: Registrations, name: string): Option<nat> {
    var builtins := Filter(reg, Candidates(reg, name), (e: SearchExtractor) => !e.isPlugin);
    if builtins == [] then None else Some(builtins[0])
  }

  function EligiblePlugins(reg: Registrations, name: string): seq<nat> {
    var uncontested := FirstBuiltin(reg, name).None?;
    Filter(reg, Candidates(reg, name), (e: SearchExtractor) => e.isPlugin && (uncontested || e.overridesBuiltin))
  }

  function FindSearchExtractor(reg: Registrations, name: string): Option<nat> {
    var builtin, eligible := FirstBuiltin(reg, name), EligiblePlugins(reg, name);
    if builtin.Some? && eligible == [] then builtin else MaxByPriority(reg, Reverse(eligible))
  }

  // ---- The policy -----------------------------------------------------------------------------------------

  ghost predicate Matches(reg: Registrations, name: string, i: nat) {
    i < |reg| && EqIgnoreAsciiCase(reg[i].name, name)
  }

  ghost predicate BuiltinAt(reg: Registrations, name: string, i: nat) {
    Matches(reg, name, i) && !reg[i].isPlugin
  }

  ghost predicate HasBuiltin(reg: Registrations, name: string) {
    exists i: nat :: BuiltinAt(reg, name, i)
  }

  /** Against a built-in only the plugins that claim the override compete; otherwise every plugin does. */
  ghost predicate Competes(reg: Registrations, name: string, i: nat) {
    Matches(reg, name, i) && reg[i].isPlugin && (!HasBuiltin(reg, name) || reg[i].overridesBuiltin)
  }

  /** Higher priority first, then earlier registration. */
  ghost predicate Beats(reg: Registrations, i: nat, j: nat)
    requires i < |reg| && j < |reg|
  {
    reg[i].priority > reg[j].priority || (reg[i].priority == reg[j].priority && i <= j)
  }

  /** The best competing plugin, or without one the first built-in. */
  ghost predicate Wins(reg: Registrations, name: string, i: nat) {
    if exists j: nat :: Competes(reg, name, j)
    then Competes(reg, name, i) && forall j: nat :: Competes(reg, name, j) ==> Beats(reg, i, j)
    else BuiltinAt(reg, name, i) && forall j: nat :: BuiltinAt(reg, name, j) ==> i <= j
  }

  // ---- The pipelines follow the policy --------------------------------------------------------------------

  ghost predicate Increasing(order: seq<nat>) {
    forall j, k :: 0 <= j < k < |order| ==> order[j] < order[k]
  }

  lemma FirstIsLeast(order: seq<nat>, x: nat)
    requires Increasing(order) && order != [] && x in order[1..]
    ensures order[0] < x
  {
    var m :| 0 <= m < |order| - 1 && order[1..][m] == x;
    assert order[m + 1] == x;
  }

  lemma {:induction false} FilterIncreasing(reg: Registrations, order: seq<nat>, p: SearchExtractor -> bool)
    requires forall k :: 0 <= k < |order| ==> order[k] < |reg|
    requires Increasing(order)
    ensures Increasing(Filter(reg, order, p))
  {
    if order != [] {
      var kept := Filter(reg, order[1..], p);
      FilterIncreasing(reg, order[1..], p);
      forall k | 0 <= k < |kept| ensures order[0] < kept[k] {
        FirstIsLeast(order, kept[k]);
      }
    }
  }

  lemma CandidatesMatch(reg: Registrations, name: string)
    ensures Increasing(Candidates(reg, name))
    ensures forall i: nat :: i in Candidates(reg, name) <==> Matches(reg, name, i)
  {
    var p := (e: SearchExtractor) => EqIgnoreAsciiCase(e.name, name);
    FilterIncreasing(reg, Positions(|reg|), p);
    forall i: nat ensures i in Candidates(reg, name) <==> Matches(reg, name, i) {
      if i < |reg| {
        assert Positions(|reg|)[i] == i;
        assert i in Positions(|reg|);
      }
    }
  }

  lemma BuiltinsMatch(reg: Registrations, name: string)
    ensures FirstBuiltin(reg, name).Some? <==> HasBuiltin(reg, name)
    ensures FirstBuiltin(reg, name).Some? ==>
      && BuiltinAt(reg, name, FirstBuiltin(reg, name).value)
      && forall j: nat :: BuiltinAt(reg, name, j) ==> FirstBuiltin(reg, name).value <= j
  {
    CandidatesMatch(reg, name);
    var p := (e: SearchExtractor) => !e.isPlugin;
    var builtins := Filter(reg, Candidates(reg, name), p);
    FilterIncreasing(reg, Candidates(reg, name), p);
    forall j: nat | BuiltinAt(reg, name, j) ensures builtins != [] && builtins[0] <= j {
      assert j in builtins;
    }
    if builtins != [] {
      assert builtins[0] in builtins;
      assert BuiltinAt(reg, name, builtins[0]);
    }
  }

  lemma EligibleMatch(reg: Registrations, name: string)
    ensures Increasing(EligiblePlugins(reg, name))
    ensures forall i: nat :: i in EligiblePlugins(reg, name) <==> Competes(reg, name, i)
  {
    CandidatesMatch(reg, name);
    BuiltinsMatch(reg, name);
    var uncontested := FirstBuiltin(reg, name).None?;
    FilterIncreasing(reg, Candidates(reg, name),
                     (e: SearchExtractor) => e.isPlugin && (uncontested || e.overridesBuiltin));
  }

  /** On decreasing positions the last of the greatest priorities is the earliest registration among them. */
  lemma {:induction false} MaxBeatsAll(reg: Registrations, order: seq<nat>)
    requires forall k :: 0 <= k < |order| ==> order[k] < |reg|
    requires forall j, k :: 0 <= j < k < |order| ==> order[k] < order[j]
    ensures MaxByPriority(reg, order).Some? <==> order != []
    ensures order != [] ==> MaxByPriority(reg, order).value in order
    ensures order != [] ==> forall k :: 0 <= k < |order| ==> Beats(reg, MaxByPriority(reg, order).value, order[k])
    decreases |order|
  {
    hide Beats;
    if order != [] {
      var n := |order| - 1;
      MaxBeatsAll(reg, order[..n]);
      if n > 0 {
        assert order[..n] != [];
        LastOrBest(reg, order);
      } else {
        BeatsItself(reg, order[0]);
      }
    }
  }

  lemma BeatsItself(reg: Registrations, i: nat)
    requires i < |reg|
    ensures Beats(reg, i, i)
  {
  }

  /** What is no worse than the best and registered earlier beats what the best beats. */
  lemma BeatsAfter(reg: Registrations, last: nat, best: nat, x: nat)
    requires last < |reg| && best < |reg| && x < |reg|
    requires reg[last].priority >= reg[best].priority && last <= x && Beats(reg, best, x)
    ensures Beats(reg, last, x)
  {
  }

  /** One more position behind a best one. */
  lemma LastOrBest(reg: Registrations, order: seq<nat>)
    requires |order| > 1 && forall k :: 0 <= k < |order| ==> order[k] < |reg|
    requires forall j, k :: 0 <= j < k < |order| ==> order[k] < order[j]
    requires var n := |order| - 1; var best := MaxByPriority(reg, order[..n]);
      best.Some? && best.value in order[..n] && forall k :: 0 <= k < n ==> Beats(reg, best.value, order[..n][k])
    ensures var m := MaxByPriority(reg, order);
      m.Some? && m.value in order && forall k :: 0 <= k < |order| ==> Beats(reg, m.value, order[k])
  {
    hide Beats;
    var n := |order| - 1;
    var last, best := order[n], MaxByPriority(reg, order[..n]).value;
    var m := if reg[last].priority >= reg[best].priority then last else best;
    assert MaxByPriority(reg, order) == Some(m);
    InPrefix(order, best);
    forall k | 0 <= k < |order| ensures Beats(reg, m, order[k]) {
      if k == n {
        BestOfTwo(reg, last, best);
      } else {
        assert Beats(reg, best, order[..n][k]);
        if m == last {
          BeatsAfter(reg, last, best, order[k]);
        }
      }
    }
  }

  lemma InPrefix(order: seq<nat>, x: nat)
    requires order != [] && x in order[..|order| - 1]
    ensures x in order
  {
  }

  lemma BestOfTwo(reg: Registrations, last: nat, best: nat)
    requires last < |reg| && best < |reg|
    ensures Beats(reg, if reg[last].priority >= reg[best].priority then last else best, last)
  {
  }

  lemma NoCompetitor(reg: Registrations, name: string)
    requires EligiblePlugins(reg, name) == []
    ensures forall i: nat :: !Competes(reg, name, i)
    ensures forall i: nat :: Matches(reg, name, i) ==> HasBuiltin(reg, name)
  {
    EligibleMatch(reg, name);
    forall i: nat ensures !Competes(reg, name, i) {
      assert i !in EligiblePlugins(reg, name);
    }
    forall i: nat | Matches(reg, name, i) ensures HasBuiltin(reg, name) {
      assert BuiltinAt(reg, name, i) || Competes(reg, name, i) || HasBuiltin(reg, name);
    }
  }

  /** Reversing the eligible plugins makes the last maximum the first one registered. */
  lemma BestCompetitor(reg: Registrations, name: string) returns (w: nat)
    requires EligiblePlugins(reg, name) != []
    ensures MaxByPriority(reg, Reverse(EligiblePlugins(reg, name))) == Some(w) && Competes(reg, name, w)
    ensures forall j: nat :: Competes(reg, name, j) ==> Beats(reg, w, j)
  {
    var eligible := EligiblePlugins(reg, name);
    var order := Reverse(eligible);
    EligibleMatch(reg, name);
    MaxBeatsAll(reg, order);
    w := MaxByPriority(reg, order).value;
    ReverseMembers(eligible, w);
    forall j: nat | Competes(reg, name, j) ensures Beats(reg, w, j) {
      ReverseMembers(eligible, j);
      var m :| 0 <= m < |order| && order[m] == j;
    }
  }

  lemma ReverseMembers(s: seq<nat>, x: nat)
    ensures x in s <==> x in Reverse(s)
  {
    if x in s {
      var k :| 0 <= k < |s| && s[k] == x;
      assert Reverse(s)[|s| - 1 - k] == x;
    }
  }

  lemma ResolvesToAWinner(reg: Registrations, name: string)
    ensures FindSearchExtractor(reg, name).Some? ==> Wins(reg, name, FindSearchExtractor(reg, name).value)
    ensures FindSearchExtractor(reg, name).None? ==> forall i: nat :: !Matches(reg, name, i)
  {
    BuiltinsMatch(reg, name);
    if EligiblePlugins(reg, name) == [] {
      NoCompetitor(reg, name);
    } else {
      var w := BestCompetitor(reg, name);
    }
  }

  lemma WinnerIsUnique(reg: Registrations, name: string, i: nat, j: nat)
    requires Wins(reg, name, i) && Wins(reg, name, j)
    ensures i == j
  {
  }

  /** Looking up a name finds exactly the winner of the policy, and fails exactly when nothing matches. */
  lemma ResolvesExactly(reg: Registrations, name: string)
    ensures forall i: nat :: FindSearchExtractor(reg, name) == Some(i) <==> Wins(reg, name, i)
    ensures FindSearchExtractor(reg, name).Some? <==> exists i: nat :: Matches(reg, name, i)
  {
    ResolvesToAWinner(reg, name);
    var found := FindSearchExtractor(reg, name);
    if found.Some? {
      assert Matches(reg, name, found.value);
      forall i: nat | Wins(reg, name, i) ensures found == Some(i) {
        WinnerIsUnique(reg, name, i, found.value);
      }
    } else {
      forall i: nat ensures !Wins(reg, name, i) {
        assert !Matches(reg, name, i);
      }
    }
  }

  /** The plugin registered at `i` may answer for `name`: no built-in has the name, or it claims the override. */
  predicate MayAnswer(reg: Registrations, name: string, i: nat)
    requires i < |reg|
  {
    && reg[i].isPlugin && EqIgnoreAsciiCase(reg[i].name, name)
    && (reg[i].overridesBuiltin
        || forall j :: 0 <= j < |reg| && EqIgnoreAsciiCase(reg[j].name, name) ==> reg[j].isPlugin)
  }

  lemma MayAnswerExactly(reg: Registrations, name: string, i: nat)
    requires i < |reg|
    ensures MayAnswer(reg, name, i) <==> Competes(reg, name, i)
  {
    if Competes(reg, name, i) && !reg[i].overridesBuiltin {
      forall j | 0 <= j < |reg| && EqIgnoreAsciiCase(reg[j].name, name) ensures reg[j].isPlugin {
        assert !BuiltinAt(reg, name, j);
      }
    }
    if MayAnswer(reg, name, i) && HasBuiltin(reg, name) {
      var j: nat :| BuiltinAt(reg, name, j);
      assert reg[i].overridesBuiltin;
    }
  }

  /** A plugin found has the highest priority of all that may answer, and of those with it came first. */
  lemma PluginFoundIsBest(reg: Registrations, name: string, i: nat, j: nat)
    requires FindSearchExtractor(reg, name) == Some(i) && i < |reg| && reg[i].isPlugin
    requires j < |reg| && MayAnswer(reg, name, j)
    ensures MayAnswer(reg, name, i)
    ensures reg[j].priority <= reg[i].priority && (reg[j].priority == reg[i].priority ==> i <= j)
  {
    ResolvesExactly(reg, name);
    MayAnswerExactly(reg, name, i);
    MayAnswerExactly(reg, name, j);
  }

  /** A built-in found is the first of its name, and no plugin may answer. */
  lemma BuiltinFoundIsFirst(reg: Registrations, name: string, i: nat, j: nat)
    requires FindSearchExtractor(reg, name) == Some(i) && i < |reg| && !reg[i].isPlugin
    requires j < |reg| && EqIgnoreAsciiCase(reg[j].name, name)
    ensures EqIgnoreAsciiCase(reg[i].name, name) && !MayAnswer(reg, name, j)
    ensures !reg[j].isPlugin ==> i <= j
  {
    ResolvesExactly(reg, name);
    MayAnswerExactly(reg, name, j);
    assert !reg[j].isPlugin ==> BuiltinAt(reg, name, j);
  }

  // ---- A bystander never takes over -----------------------------------------------------------------------

  function Inserted(reg: Registrations, at: nat, e: SearchExtractor): Registrations
    requires at <= |reg|
  {
    reg[..at] + [e] + reg[at..]
  }

  /** Where a registration stands after one more has been inserted at `at`. */
  function Moved(at: nat, i: nat): nat {
    if i < at then i else i + 1
  }

  lemma InsertionMoves(reg: Registrations, at: nat, e: SearchExtractor, i: nat)
    requires at <= |reg| && i < |reg|
    ensures Moved(at, i) < |Inserted(reg, at, e)| == |reg| + 1
    ensures Inserted(reg, at, e)[Moved(at, i)] == reg[i] && Inserted(reg, at, e)[at] == e
  {
  }

  lemma MovedBack(at: nat, j: nat) returns (i: nat)
    requires j != at
    ensures Moved(at, i) == j
  {
    i := if j < at then j else j - 1;
  }

  lemma BuiltinsMove(reg: Registrations, at: nat, e: SearchExtractor, name: string)
    requires at <= |reg| && (e.isPlugin || !EqIgnoreAsciiCase(e.name, name))
    ensures forall i: nat :: BuiltinAt(Inserted(reg, at, e), name, Moved(at, i)) <==> BuiltinAt(reg, name, i)
    ensures !BuiltinAt(Inserted(reg, at, e), name, at)
    ensures HasBuiltin(Inserted(reg, at, e), name) <==> HasBuiltin(reg, name)
  {
    var more := Inserted(reg, at, e);
    forall i: nat ensures BuiltinAt(more, name, Moved(at, i)) <==> BuiltinAt(reg, name, i) {
      if i < |reg| {
        InsertionMoves(reg, at, e, i);
      }
    }
    if HasBuiltin(more, name) {
      var j: nat :| BuiltinAt(more, name, j);
      var i := MovedBack(at, j);
      assert BuiltinAt(reg, name, i);
    }
    if HasBuiltin(reg, name) {
      var i: nat :| BuiltinAt(reg, name, i);
      assert BuiltinAt(more, name, Moved(at, i));
    }
  }

  /** Has no claim on the name: another name, or a plugin that does not override the built-in of this one. */
  ghost predicate Bystander(reg: Registrations, e: SearchExtractor, name: string) {
    || !EqIgnoreAsciiCase(e.name, name)
    || (e.isPlugin && !e.overridesBuiltin && HasBuiltin(reg, name))
  }

  lemma CompetitorsMove(reg: Registrations, at: nat, e: SearchExtractor, name: string)
    requires at <= |reg| && Bystander(reg, e, name)
    ensures forall i: nat :: Competes(Inserted(reg, at, e), name, Moved(at, i)) <==> Competes(reg, name, i)
    ensures !Competes(Inserted(reg, at, e), name, at)
  {
    BuiltinsMove(reg, at, e, name);
    forall i: nat ensures Competes(Inserted(reg, at, e), name, Moved(at, i)) <==> Competes(reg, name, i) {
      if i < |reg| {
        InsertionMoves(reg, at, e, i);
      }
    }
  }

  lemma WinnerMoves(reg: Registrations, at: nat, e: SearchExtractor, name: string, w: nat)
    requires at <= |reg| && Bystander(reg, e, name) && Wins(reg, name, w)
    ensures Wins(Inserted(reg, at, e), name, Moved(at, w))
  {
    var more := Inserted(reg, at, e);
    BuiltinsMove(reg, at, e, name);
    CompetitorsMove(reg, at, e, name);
    if exists j: nat :: Competes(reg, name, j) {
      var j: nat :| Competes(reg, name, j);
      assert Competes(more, name, Moved(at, j));
      forall j: nat | Competes(more, name, j) ensures Beats(more, Moved(at, w), j) {
        var i := MovedBack(at, j);
        assert Competes(reg, name, i) && Beats(reg, w, i);
        InsertionMoves(reg, at, e, i);
        InsertionMoves(reg, at, e, w);
      }
    } else {
      forall j: nat ensures !Competes(more, name, j) {
        if j != at {
          var i := MovedBack(at, j);
        }
      }
      forall j: nat | BuiltinAt(more, name, j) ensures Moved(at, w) <= j {
        var i := MovedBack(at, j);
        assert BuiltinAt(reg, name, i);
      }
    }
  }

  /**
    Registering a bystander, at whatever position, leaves every name's winner the object it was; in particular
    a plugin that claims no override never takes a name that has a built-in, whatever its priority.
  */
  lemma BystanderChangesNothing(reg: Registrations, at: nat, e: SearchExtractor, name: string)
    requires at <= |reg| && Bystander(reg, e, name)
    ensures FindSearchExtractor(Inserted(reg, at, e), name)
         == match FindSearchExtractor(reg, name)
            case None => None
            case Some(w) => Some(Moved(at, w))
  {
    var more := Inserted(reg, at, e);
    ResolvesExactly(reg, name);
    ResolvesExactly(more, name);
    match FindSearchExtractor(reg, name) {
      case Some(w) => WinnerMoves(reg, at, e, name, w);
      case None =>
        assert !HasBuiltin(reg, name);
        forall j: nat ensures !Matches(more, name, j) {
          if j == at {
            assert more[at] == e;
          } else {
            var i := MovedBack(at, j);
            assert !Matches(reg, name, i);
            if i < |reg| {
              InsertionMoves(reg, at, e, i);
            }
          }
        }
    }
  }

  // ---- The listing ----------------------------------------------------------------------------------------

  /** No earlier registration carries the name. */
  ghost predicate FirstOfItsName(reg: Registrations, i: nat) {
    i < |reg| && forall j :: 0 <= j < i ==> !EqIgnoreAsciiCase(reg[j].name, reg[i].name)
  }

  class ExtractorRegistry {
    var searchExtractors: Registrations

    constructor ()
      ensures searchExtractors == []
    {
      searchExtractors := [];
    }

    method RegisterSearch(e: SearchExtractor)
      modifies this
      ensures searchExtractors == Inserted(old(searchExtractors), |old(searchExtractors)|, e)
    {
      searchExtractors := searchExtractors + [e];
    }

    /** The first registration of each name, in order. */
    method DistinctSearchExtractors() returns (listed: seq<nat>)
      ensures ListsFirst(searchExtractors, listed, |searchExtractors|)
    {
      var seen: seq<string> := [];
      listed := [];
      for i := 0 to |searchExtractors|
        invariant ListsFirst(searchExtractors, listed, i)
        invariant |seen| == |listed|
        invariant forall k :: 0 <= k < |listed| ==>
          listed[k] < |searchExtractors| && seen[k] == searchExtractors[listed[k]].name
      {
        var name := searchExtractors[i].name;
        SeenExactly(searchExtractors, listed, seen, i);
        ListsNext(searchExtractors, listed, i);
        if exists k :: 0 <= k < |seen| && EqIgnoreAsciiCase(seen[k], name) {
          continue;
        }
        seen := seen + [name];
        listed := listed + [i];
      }
    }
  }

  /** The first occurrences among the first `n` registrations, in order. */
  ghost predicate ListsFirst(reg: Registrations, listed: seq<nat>, n: nat) {
    && Increasing(listed)
    && forall x: nat :: x in listed <==> x < n && FirstOfItsName(reg, x)
  }

  lemma ListsNext(reg: Registrations, listed: seq<nat>, n: nat)
    requires ListsFirst(reg, listed, n) && n < |reg|
    ensures ListsFirst(reg, if FirstOfItsName(reg, n) then listed + [n] else listed, n + 1)
  {
    forall k | 0 <= k < |listed| ensures listed[k] < n {
      assert listed[k] in listed;
    }
  }

  lemma SeenExactly(reg: Registrations, listed: seq<nat>, seen: seq<string>, i: nat)
    requires ListsFirst(reg, listed, i) && i < |reg| && |seen| == |listed|
    requires forall k :: 0 <= k < |listed| ==> listed[k] < |reg| && seen[k] == reg[listed[k]].name
    ensures (exists k :: 0 <= k < |seen| && EqIgnoreAsciiCase(seen[k], reg[i].name)) <==> !FirstOfItsName(reg, i)
  {
    if k :| 0 <= k < |seen| && EqIgnoreAsciiCase(seen[k], reg[i].name) {
      assert listed[k] in listed;
    }
    if !FirstOfItsName(reg, i) {
      var first := FirstWithName(reg, i);
      assert first in listed;
      var k :| 0 <= k < |listed| && listed[k] == first;
      assert EqIgnoreAsciiCase(seen[k], reg[i].name);
    }
  }

  lemma ListedNamesDiffer(reg: Registrations, listed: seq<nat>, j: nat, k: nat)
    requires ListsFirst(reg, listed, |reg|) && j < k < |listed|
    ensures listed[j] < listed[k] < |reg| && !EqIgnoreAsciiCase(reg[listed[j]].name, reg[listed[k]].name)
  {
    assert listed[k] in listed;
  }

  lemma ListedResolve(reg: Registrations, listed: seq<nat>, k: nat)
    requires ListsFirst(reg, listed, |reg|) && k < |listed|
    ensures listed[k] < |reg| && FindSearchExtractor(reg, reg[listed[k]].name).Some?
  {
    assert listed[k] in listed;
    ResolvesExactly(reg, reg[listed[k]].name);
    assert Matches(reg, reg[listed[k]].name, listed[k]);
  }

  lemma EveryNameListed(reg: Registrations, listed: seq<nat>, i: nat) returns (k: nat)
    requires ListsFirst(reg, listed, |reg|) && i < |reg|
    ensures k < |listed| && listed[k] <= i && EqIgnoreAsciiCase(reg[listed[k]].name, reg[i].name)
  {
    var first := FirstWithName(reg, i);
    assert first in listed;
    k :| 0 <= k < |listed| && listed[k] == first;
  }

  /** The name registered at `i` is listed where it first occurs. */
  ghost predicate NameListed(reg: Registrations, listed: seq<nat>, i: nat)
    requires i < |reg|
  {
    exists k :: 0 <= k < |listed| && listed[k] <= i && EqIgnoreAsciiCase(reg[listed[k]].name, reg[i].name)
  }

  /** The listed names differ, every registered name is listed where it first occurs, and all of them resolve. */
  lemma ListingIsFaithful(reg: Registrations, listed: seq<nat>)
    requires ListsFirst(reg, listed, |reg|)
    ensures forall j, k :: 0 <= j < k < |listed| ==>
      listed[j] < listed[k] < |reg| && !EqIgnoreAsciiCase(reg[listed[j]].name, reg[listed[k]].name)
    ensures forall i: nat :: i < |reg| ==> NameListed(reg, listed, i)
    ensures forall k :: 0 <= k < |listed| ==>
      listed[k] < |reg| && FindSearchExtractor(reg, reg[listed[k]].name).Some?
  {
    forall j, k | 0 <= j < k < |listed|
      ensures listed[j] < listed[k] < |reg| && !EqIgnoreAsciiCase(reg[listed[j]].name, reg[listed[k]].name)
    {
      ListedNamesDiffer(reg, listed, j, k);
    }
    forall i: nat | i < |reg| ensures NameListed(reg, listed, i) {
      var k := EveryNameListed(reg, listed, i);
    }
    forall k | 0 <= k < |listed|
      ensures listed[k] < |reg| && FindSearchExtractor(reg, reg[listed[k]].name).Some?
    {
      ListedResolve(reg, listed, k);
    }
  }

  lemma {:induction false} FirstWithName(reg: Registrations, i: nat) returns (first: nat)
    requires i < |reg|
    ensures first <= i && FirstOfItsName(reg, first) && EqIgnoreAsciiCase(reg[first].name, reg[i].name)
    decreases i
  {
    if FirstOfItsName(reg, i) {
      first := i;
    } else {
      var j: nat :| j < i && EqIgnoreAsciiCase(reg[j].name, reg[i].name);
      first := FirstWithName(reg, j);
    }
  }
}
