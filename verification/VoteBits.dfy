/** wallet/wallet.go: the vote bits the wallet caches, and the agenda preferences it
    stores.  The cached bits are updated choice by choice, by masks; they always
    equal what would be computed from the stored preferences. */
module VoteBits {

  datatype Choice = Choice(id: string, bits: bv16)

  datatype Agenda = Agenda(id: string, mask: bv16, choices: seq<Choice>)

  /** The choice ID stored for an agenda; the empty string if none is. */
  type Preferences = map<string, string>

  function Preference(prefs: Preferences, id: string): string {
    if id in prefs then prefs[id] else ""
  }

  // The bit operations, kept apart from the lists of agendas.

  function Or(a: bv16, b: bv16): bv16 {
    a | b
  }

  /** Clears the bits of a mask. */
  function Clear(a: bv16, mask: bv16): bv16 {
    a & !mask
  }

  predicate Inside(bits: bv16, mask: bv16) {
    bits & mask == bits
  }

  predicate Apart(a: bv16, b: bv16) {
    a & b == 0
  }

  lemma OrApart(rest: bv16, a: bv16, mask: bv16, m: bv16)
    requires Inside(a, mask) && Apart(mask, m) && Apart(rest, m)
    ensures Apart(Or(rest, a), m)
  {
  }

  lemma ReplaceBits(rest: bv16, a: bv16, b: bv16, mask: bv16)
    requires Inside(a, mask) && Apart(rest, mask)
    ensures Or(Clear(Or(rest, a), mask), b) == Or(rest, b)
  {
  }

  lemma KeepBits(rest: bv16, a: bv16, b: bv16, m: bv16, mask: bv16)
    requires Inside(a, mask) && Apart(m, mask)
    ensures Or(Or(Clear(rest, m), b), a) == Or(Clear(Or(rest, a), m), b)
  {
  }

  lemma NoneInside(mask: bv16)
    ensures Inside(0, mask)
  {
  }

  /** The bits of the first choice with an ID; none without one. */
  function ChoiceBits(choices: seq<Choice>, id: string): bv16 {
    if choices == [] || id == "" then 0
    else if choices[0].id == id then choices[0].bits
    else ChoiceBits(choices[1..], id)
  }

  /** The vote bits of stored preferences: the previous block is valid, and every
      agenda adds the bits of its choice. */
  function StoredBits(agendas: seq<Agenda>, prefs: Preferences): bv16 {
    if agendas == [] then 1
    else
      var n := |agendas| - 1;
      Or(StoredBits(agendas[..n], prefs), ChoiceBits(agendas[n].choices, Preference(prefs, agendas[n].id)))
  }

  /** Choices have IDs and use only their agenda's bits, and not the bit for the
      previous block. */
  ghost predicate AgendaOk(a: Agenda) {
    Apart(1, a.mask) && forall c :: c in a.choices ==> c.id != "" && Inside(c.bits, a.mask)
  }

  /** Agendas also have IDs and bits of their own. */
  ghost predicate AgendasOk(agendas: seq<Agenda>) {
    && (forall i :: 0 <= i < |agendas| ==> AgendaOk(agendas[i]))
    && (forall i, j :: 0 <= i < j < |agendas| ==> Differ(agendas[i], agendas[j]))
  }

  ghost predicate Differ(a: Agenda, b: Agenda) {
    a.id != b.id && Apart(a.mask, b.mask)
  }

  lemma {:induction false} ChoiceInMask(choices: seq<Choice>, id: string, mask: bv16)
    requires forall c :: c in choices ==> Inside(c.bits, mask)
    ensures Inside(ChoiceBits(choices, id), mask)
  {
    NoneInside(mask);
    hide Inside;
    if choices == [] || id == "" || choices[0].id == id {
    } else {
      ChoiceInMask(choices[1..], id, mask);
    }
  }

  /** Agendas with other IDs and bits neither see a change nor use its bits. */
  lemma {:induction false} OtherAgendas(agendas: seq<Agenda>, prefs: Preferences, a: Agenda, choice: string)
    requires AgendasOk(agendas) && AgendaOk(a)
    requires forall i :: 0 <= i < |agendas| ==> Differ(agendas[i], a)
    ensures StoredBits(agendas, prefs[a.id := choice]) == StoredBits(agendas, prefs)
    ensures Apart(StoredBits(agendas, prefs), a.mask)
  {
    hide Or, Inside, Apart, ChoiceBits;
    if agendas == [] {
    } else {
      var n := |agendas| - 1;
      OtherAgendas(agendas[..n], prefs, a, choice);
      var last := agendas[n];
      assert AgendaOk(last) && Differ(last, a);
      ChoiceInMask(last.choices, Preference(prefs, last.id), last.mask);
      OrApart(StoredBits(agendas[..n], prefs), ChoiceBits(last.choices, Preference(prefs, last.id)), last.mask, a.mask);
    }
  }

  /** Storing a choice changes the bits exactly as clearing the agenda's mask and
      setting the choice's bits does. */
  lemma {:induction false} StoreIsMaskedUpdate(agendas: seq<Agenda>, prefs: Preferences, k: nat, choice: string)
    requires AgendasOk(agendas) && k < |agendas|
    ensures StoredBits(agendas, prefs[agendas[k].id := choice]) ==
            Or(Clear(StoredBits(agendas, prefs), agendas[k].mask), ChoiceBits(agendas[k].choices, choice))
  {
    hide Or, Clear, Inside, Apart, ChoiceBits;
    var n := |agendas| - 1;
    var last := agendas[n];
    var bits := ChoiceBits(last.choices, Preference(prefs, last.id));
    assert AgendaOk(last);
    ChoiceInMask(last.choices, Preference(prefs, last.id), last.mask);
    var rest := StoredBits(agendas[..n], prefs);
    if k == n {
      OtherAgendas(agendas[..n], prefs, last, choice);
      ReplaceBits(rest, bits, ChoiceBits(last.choices, choice), last.mask);
    } else {
      StoreIsMaskedUpdate(agendas[..n], prefs, k, choice);
      assert Differ(agendas[k], last);
      KeepBits(rest, bits, ChoiceBits(agendas[k].choices, choice), agendas[k].mask, last.mask);
    }
  }

  datatype AgendaChoice = AgendaChoice(agendaID: string, choiceID: string)

  predicate HasChoice(choices: seq<Choice>, id: string) {
    exists i :: 0 <= i < |choices| && choices[i].id == id
  }

  /** The choice names an agenda and one of its choices. */
  predicate Known(agendas: seq<Agenda>, c: AgendaChoice) {
    exists k :: 0 <= k < |agendas| && agendas[k].id == c.agendaID && HasChoice(agendas[k].choices, c.choiceID)
  }

  /** The preferences after all choices; the last one for an agenda counts. */
  function Stored(prefs: Preferences, choices: seq<AgendaChoice>): Preferences {
    if choices == [] then prefs
    else
      var n := |choices| - 1;
      Stored(prefs, choices[..n])[choices[n].agendaID := choices[n].choiceID]
  }

  datatype Applied = Applied(mask: bv16, bits: bv16)

  /** The cached bits after masked updates. */
  function Masked(bits: bv16, applied: seq<Applied>): bv16 {
    if applied == [] then bits
    else
      var n := |applied| - 1;
      Or(Clear(Masked(bits, applied[..n]), applied[n].mask), applied[n].bits)
  }

  // ----- what calls do to the cache -----

  /** The first agenda with an ID. */
  function AgendaOf(agendas: seq<Agenda>, id: string): (k: nat)
    ensures k <= |agendas| && (k < |agendas| ==> agendas[k].id == id)
    ensures k == |agendas| ==> forall i :: 0 <= i < |agendas| ==> agendas[i].id != id
  {
    if agendas == [] then 0
    else if agendas[0].id == id then 0
    else 1 + AgendaOf(agendas[1..], id)
  }

  predicate AllKnown(agendas: seq<Agenda>, choices: seq<AgendaChoice>) {
    forall i :: 0 <= i < |choices| ==> Known(agendas, choices[i])
  }

  /** The masked updates of some choices. */
  function Updates(agendas: seq<Agenda>, choices: seq<AgendaChoice>): seq<Applied>
    requires AllKnown(agendas, choices)
  {
    if choices == [] then []
    else
      var n := |choices| - 1;
      var k := AgendaOf(agendas, choices[n].agendaID);
      Updates(agendas, choices[..n]) + [Applied(agendas[k].mask, ChoiceBits(agendas[k].choices, choices[n].choiceID))]
  }

  /** Updating the cache by masks follows storing the choices. */
  lemma {:induction false} UpdatesFollow(agendas: seq<Agenda>, prefs: Preferences, choices: seq<AgendaChoice>)
    requires AgendasOk(agendas) && AllKnown(agendas, choices)
    ensures Masked(StoredBits(agendas, prefs), Updates(agendas, choices)) == StoredBits(agendas, Stored(prefs, choices))
  {
    hide Or, Clear, ChoiceBits, StoredBits, AgendasOk;
    if choices != [] {
      var n := |choices| - 1;
      var k := AgendaOf(agendas, choices[n].agendaID);
      UpdatesFollow(agendas, prefs, choices[..n]);
      StoreIsMaskedUpdate(agendas, Stored(prefs, choices[..n]), k, choices[n].choiceID);
      MaskedOnce(StoredBits(agendas, prefs), Updates(agendas, choices[..n]),
                 Applied(agendas[k].mask, ChoiceBits(agendas[k].choices, choices[n].choiceID)));
    }
  }

  /** The last choice for an agenda; the empty string if there is none. */
  function LastChoice(choices: seq<AgendaChoice>, id: string): string {
    if choices == [] then ""
    else
      var n := |choices| - 1;
      if choices[n].agendaID == id then choices[n].choiceID else LastChoice(choices[..n], id)
  }

  lemma {:induction false} StoredPreference(agendas: seq<Agenda>, prefs: Preferences, choices: seq<AgendaChoice>, id: string)
    requires AgendasOk(agendas) && AllKnown(agendas, choices)
    ensures Preference(Stored(prefs, choices), id) ==
            if LastChoice(choices, id) == "" then Preference(prefs, id) else LastChoice(choices, id)
  {
    hide Inside, Apart;
    if choices != [] {
      var n := |choices| - 1;
      StoredPreference(agendas, prefs, choices[..n], id);
      KnownNotEmpty(agendas, choices[n]);
    }
  }

  lemma KnownNotEmpty(agendas: seq<Agenda>, c: AgendaChoice)
    requires AgendasOk(agendas) && Known(agendas, c)
    ensures c.choiceID != ""
  {
    hide Inside, Apart;
    var k :| 0 <= k < |agendas| && agendas[k].id == c.agendaID && HasChoice(agendas[k].choices, c.choiceID);
    assert AgendaOk(agendas[k]);
    var i :| 0 <= i < |agendas[k].choices| && agendas[k].choices[i].id == c.choiceID;
    assert agendas[k].choices[i] in agendas[k].choices;
  }

  /** The bits an agenda contributes. */
  function Share(a: Agenda, prefs: Preferences): bv16 {
    ChoiceBits(a.choices, Preference(prefs, a.id))
  }

  function Masks(a: bv16, mask: bv16): bv16 {
    a & mask
  }

  lemma MaskOfOr(rest: bv16, bits: bv16, own: bv16, mask: bv16)
    requires Inside(bits, own)
    ensures Apart(own, mask) ==> Masks(Or(rest, bits), mask) == Masks(rest, mask)
    ensures Apart(rest, mask) && own == mask ==> Masks(Or(rest, bits), mask) == bits
  {
  }

  /** An agenda's share of the stored bits is what its mask selects. */
  lemma {:induction false} ShareIsMasked(agendas: seq<Agenda>, prefs: Preferences, k: nat)
    requires AgendasOk(agendas) && k < |agendas|
    ensures Masks(StoredBits(agendas, prefs), agendas[k].mask) == Share(agendas[k], prefs)
  {
    hide Or, Inside, Apart, Masks, ChoiceBits;
    var n := |agendas| - 1;
    var last, rest := agendas[n], StoredBits(agendas[..n], prefs);
    assert AgendaOk(last);
    ChoiceInMask(last.choices, Preference(prefs, last.id), last.mask);
    MaskOfOr(rest, Share(last, prefs), last.mask, agendas[k].mask);
    if k == n {
      OtherAgendas(agendas[..n], prefs, last, "");
    } else {
      assert Differ(agendas[k], last);
      ApartSwap(agendas[k].mask, last.mask);
      ShareIsMasked(agendas[..n], prefs, k);
    }
  }

  lemma ApartSwap(a: bv16, b: bv16)
    requires Apart(a, b)
    ensures Apart(b, a)
  {
  }

  /** Preferences give the same bits exactly if every agenda's share is the same. */
  lemma {:induction false} SameBits(agendas: seq<Agenda>, prefs: Preferences, prefs': Preferences)
    requires AgendasOk(agendas)
    ensures StoredBits(agendas, prefs) == StoredBits(agendas, prefs') <==>
            forall k :: 0 <= k < |agendas| ==> Share(agendas[k], prefs) == Share(agendas[k], prefs')
  {
    hide Or, Inside, Apart, Masks, ChoiceBits;
    if StoredBits(agendas, prefs) == StoredBits(agendas, prefs') {
      forall k | 0 <= k < |agendas|
        ensures Share(agendas[k], prefs) == Share(agendas[k], prefs')
      {
        ShareIsMasked(agendas, prefs, k);
        ShareIsMasked(agendas, prefs', k);
      }
    }
    if agendas != [] && forall k :: 0 <= k < |agendas| ==> Share(agendas[k], prefs) == Share(agendas[k], prefs') {
      var n := |agendas| - 1;
      assert Share(agendas[n], prefs) == Share(agendas[n], prefs');
      SameBits(agendas[..n], prefs, prefs');
    }
  }

  /** The bits of a choice are those of the first one with its ID; an unknown ID has
      none. */
  lemma {:induction false} ChoiceBitsExactly(choices: seq<Choice>, id: string, k: nat)
    requires k <= |choices| && forall i :: 0 <= i < k ==> choices[i].id != id
    ensures k < |choices| && choices[k].id == id != "" ==> ChoiceBits(choices, id) == choices[k].bits
    ensures k == |choices| ==> ChoiceBits(choices, id) == 0
  {
    if k > 0 {
      ChoiceBitsExactly(choices[1..], id, k - 1);
    }
  }

  /** The vote bits: the first bit is always set, every agenda's bits are those of its
      preferred choice, and no others are set. */
  lemma StoredExactly(agendas: seq<Agenda>, prefs: Preferences, others: bv16)
    requires AgendasOk(agendas)
    requires Apart(1, others) && forall k :: 0 <= k < |agendas| ==> Apart(agendas[k].mask, others)
    ensures Masks(StoredBits(agendas, prefs), 1) == 1 && Masks(StoredBits(agendas, prefs), others) == 0
    ensures forall k :: 0 <= k < |agendas| ==>
              Masks(StoredBits(agendas, prefs), agendas[k].mask) == ChoiceBits(agendas[k].choices, Preference(prefs, agendas[k].id))
  {
    hide Apart, Inside, StoredBits, ChoiceBits, Masks, Or;
    NoOthers(agendas, prefs, others);
    forall k | 0 <= k < |agendas|
      ensures Masks(StoredBits(agendas, prefs), agendas[k].mask) == Share(agendas[k], prefs)
    {
      ShareIsMasked(agendas, prefs, k);
    }
  }

  lemma {:induction false} NoOthers(agendas: seq<Agenda>, prefs: Preferences, others: bv16)
    requires AgendasOk(agendas)
    requires Apart(1, others) && forall k :: 0 <= k < |agendas| ==> Apart(agendas[k].mask, others)
    ensures Masks(StoredBits(agendas, prefs), 1) == 1 && Masks(StoredBits(agendas, prefs), others) == 0
  {
    hide Or, Inside, Apart, Masks, ChoiceBits;
    FirstOfOne(others);
    if agendas != [] {
      var n := |agendas| - 1;
      NoOthers(agendas[..n], prefs, others);
      assert AgendaOk(agendas[n]);
      ChoiceInMask(agendas[n].choices, Preference(prefs, agendas[n].id), agendas[n].mask);
      OneMore(StoredBits(agendas[..n], prefs), ChoiceBits(agendas[n].choices, Preference(prefs, agendas[n].id)), agendas[n].mask,
              others);
    }
  }

  lemma FirstOfOne(others: bv16)
    requires Apart(1, others)
    ensures Masks(1, 1) == 1 && Masks(1, others) == 0
  {
  }

  lemma OneMore(rest: bv16, bits: bv16, mask: bv16, others: bv16)
    requires Masks(rest, 1) == 1 && Masks(rest, others) == 0 && Inside(bits, mask) && Apart(mask, others)
    ensures Masks(Or(rest, bits), 1) == 1 && Masks(Or(rest, bits), others) == 0
  {
  }

  /** Two calls name an agenda with choices of different bits. */
  ghost predicate Conflict(a: Agenda, xs: seq<AgendaChoice>, ys: seq<AgendaChoice>) {
    && LastChoice(xs, a.id) != "" && LastChoice(ys, a.id) != ""
    && ChoiceBits(a.choices, LastChoice(xs, a.id)) != ChoiceBits(a.choices, LastChoice(ys, a.id))
  }

  /** Storage and cache are changed one after the other, so two overlapping calls may
      be stored in one order and cached in the other.  Then cache and storage agree
      exactly if the calls conflict in no agenda. */
  lemma OverlappingCalls(agendas: seq<Agenda>, prefs: Preferences, xs: seq<AgendaChoice>, ys: seq<AgendaChoice>)
    requires AgendasOk(agendas) && AllKnown(agendas, xs) && AllKnown(agendas, ys)
    ensures Masked(Masked(StoredBits(agendas, prefs), Updates(agendas, ys)), Updates(agendas, xs)) ==
            StoredBits(agendas, Stored(Stored(prefs, xs), ys))
            <==> forall k :: 0 <= k < |agendas| ==> !Conflict(agendas[k], xs, ys)
  {
    hide AgendasOk, ChoiceBits, StoredBits, Stored, Masked, Updates, AllKnown, LastChoice;
    UpdatesFollow(agendas, prefs, ys);
    UpdatesFollow(agendas, Stored(prefs, ys), xs);
    var stored, cached := Stored(Stored(prefs, xs), ys), Stored(Stored(prefs, ys), xs);
    SameBits(agendas, stored, cached);
    forall k | 0 <= k < |agendas|
      ensures Share(agendas[k], stored) == Share(agendas[k], cached) <==> !Conflict(agendas[k], xs, ys)
    {
      var id := agendas[k].id;
      StoredPreference(agendas, prefs, xs, id);
      StoredPreference(agendas, prefs, ys, id);
      StoredPreference(agendas, Stored(prefs, xs), ys, id);
      StoredPreference(agendas, Stored(prefs, ys), xs, id);
    }
  }

  /** For instance two calls that choose differently for one agenda. */
  lemma OverlappingCallsDisagree()
    ensures var agendas := [Agenda("a", 6, [Choice("yes", 4), Choice("no", 2)])];
            var xs, ys := [AgendaChoice("a", "yes")], [AgendaChoice("a", "no")];
            && AgendasOk(agendas) && AllKnown(agendas, xs) && AllKnown(agendas, ys)
            && Masked(Masked(StoredBits(agendas, map[]), Updates(agendas, ys)), Updates(agendas, xs)) !=
               StoredBits(agendas, Stored(Stored(map[], xs), ys))
  {
    var agenda := Agenda("a", 6, [Choice("yes", 4), Choice("no", 2)]);
    var xs, ys := [AgendaChoice("a", "yes")], [AgendaChoice("a", "no")];
    assert AgendaOk(agenda);
    assert agenda.choices[0].id == "yes" && agenda.choices[1].id == "no";
    assert HasChoice(agenda.choices, "yes") && HasChoice(agenda.choices, "no");
    assert agenda.choices[1..] == [Choice("no", 2)];
    assert [agenda][0].id == "a";
    assert Conflict([agenda][0], xs, ys);
    OverlappingCalls([agenda], map[], xs, ys);
  }

  datatype Result = Ok(voteBits: bv16) | Failed

  class AgendaVotes {
    const agendas: seq<Agenda>
    var prefs: Preferences
    var voteBits: bv16

    /** The cached bits agree with storage. */
    ghost predicate Valid()
      reads this
    {
      AgendasOk(agendas) && voteBits == StoredBits(agendas, prefs)
    }

    constructor (agendas: seq<Agenda>, prefs: Preferences)
      requires AgendasOk(agendas)
      ensures Valid() && this.agendas == agendas && this.prefs == prefs
    {
      this.agendas, this.prefs := agendas, prefs;
      voteBits := 1;
      new;
      voteBits := ReadDBVoteBits();
    }

    /** Recomputes the vote bits from storage. */
    method ReadDBVoteBits() returns (bits: bv16)
      ensures bits == StoredBits(agendas, prefs)
    {
      bits := 1;
      var i := 0;
      while i < |agendas|
        invariant 0 <= i <= |agendas|
        invariant bits == StoredBits(agendas[..i], prefs)
      {
        assert agendas[..i + 1][..i] == agendas[..i];
        hide Or, ChoiceBits;
        var choiceID := Preference(prefs, agendas[i].id);
        var found := MatchingBits(agendas[i].choices, choiceID);
        bits := Or(bits, found);
        i := i + 1;
      }
      assert agendas[..i] == agendas;
    }

    /** The bits of the first choice with the ID, if there is one. */
    method MatchingBits(choices: seq<Choice>, choiceID: string) returns (bits: bv16)
      ensures bits == ChoiceBits(choices, choiceID)
    {
      bits := 0;
      if choiceID == "" {
        return;
      }
      var j := 0;
      while j < |choices|
        invariant 0 <= j <= |choices|
        invariant ChoiceBits(choices[j..], choiceID) == ChoiceBits(choices, choiceID)
      {
        if choices[j].id == choiceID {
          return choices[j].bits;
        }
        j := j + 1;
      }
    }

    /** The first agenda and choice named, if there are such. */
    method Match(c: AgendaChoice) returns (known: bool, k: nat)
      requires AgendasOk(agendas)
      ensures known == Known(agendas, c)
      ensures known ==> k == AgendaOf(agendas, c.agendaID) < |agendas|
    {
      k := 0;
      while k < |agendas| && agendas[k].id != c.agendaID
        invariant 0 <= k <= |agendas|
        invariant forall i :: 0 <= i < k ==> agendas[i].id != c.agendaID
        invariant AgendaOf(agendas, c.agendaID) == k + AgendaOf(agendas[k..], c.agendaID)
      {
        k := k + 1;
      }
      if k == |agendas| {
        return false, k;
      }
      known := HasChoice(agendas[k].choices, c.choiceID);
      assert forall i :: k < i < |agendas| ==> Differ(agendas[k], agendas[i]);
    }

    /** Stores choices, all or none, and keeps the cached bits in step: they are set
        if and only if every choice is known.  The last choice for an agenda
        counts. */
    method SetAgendaChoices(choices: seq<AgendaChoice>) returns (r: Result)
      requires Valid()
      modifies this`prefs, this`voteBits
      ensures Valid()
      ensures r.Ok? <==> agendas != [] && forall i :: 0 <= i < |choices| ==> Known(agendas, choices[i])
      ensures r.Ok? ==> prefs == Stored(old(prefs), choices) && r.voteBits == voteBits
      ensures r.Ok? ==> AllKnown(agendas, choices) && voteBits == Masked(old(voteBits), Updates(agendas, choices))
      ensures r.Failed? ==> prefs == old(prefs) && voteBits == old(voteBits)
    {
      hide Or, Clear, Inside, Apart, ChoiceBits, AgendasOk, Known, AllKnown, Stored, StoredBits, Masked, Updates;
      if |agendas| == 0 {
        return Failed;
      }
      var tx := prefs;
      var applied: seq<Applied> := [];
      var i := 0;
      NothingYet(agendas, prefs, choices);
      while i < |choices|
        invariant 0 <= i <= |choices|
        invariant prefs == old(prefs) && voteBits == old(voteBits)
        invariant tx == Stored(prefs, choices[..i])
        invariant AllKnown(agendas, choices[..i]) && applied == Updates(agendas, choices[..i])
      {
        var known, k := Match(choices[i]);
        OneMoreKnown(agendas, choices, i);
        if !known {
          return Failed;
        }
        StoredOnce(agendas, prefs, choices, i);
        var bits := MatchingBits(agendas[k].choices, choices[i].choiceID);
        tx := tx[choices[i].agendaID := choices[i].choiceID];
        applied := applied + [Applied(agendas[k].mask, bits)];
        i := i + 1;
      }
      assert choices[..i] == choices;
      UpdatesFollow(agendas, prefs, choices);
      AllKnownMeans(agendas, choices);
      prefs := tx;
      ApplyMasks(applied);
      r := Ok(voteBits);
    }

    method ApplyMasks(applied: seq<Applied>)
      modifies this`voteBits
      ensures voteBits == Masked(old(voteBits), applied)
    {
      hide Or, Clear;
      var i := 0;
      while i < |applied|
        invariant 0 <= i <= |applied| && voteBits == Masked(old(voteBits), applied[..i])
      {
        assert applied[..i + 1][..i] == applied[..i];
        voteBits := Clear(voteBits, applied[i].mask);
        voteBits := Or(voteBits, applied[i].bits);
        i := i + 1;
      }
      assert applied[..i] == applied;
    }
  }

  lemma NothingYet(agendas: seq<Agenda>, prefs: Preferences, choices: seq<AgendaChoice>)
    ensures AllKnown(agendas, choices[..0]) && Stored(prefs, choices[..0]) == prefs && Updates(agendas, choices[..0]) == []
  {
  }

  lemma AllKnownMeans(agendas: seq<Agenda>, choices: seq<AgendaChoice>)
    ensures AllKnown(agendas, choices) <==> forall i :: 0 <= i < |choices| ==> Known(agendas, choices[i])
  {
  }

  lemma OneMoreKnown(agendas: seq<Agenda>, choices: seq<AgendaChoice>, i: nat)
    requires i < |choices| && AllKnown(agendas, choices[..i])
    ensures AllKnown(agendas, choices[..i + 1]) <==> Known(agendas, choices[i])
    ensures AllKnown(agendas, choices) ==> Known(agendas, choices[i])
  {
    hide Known;
    if AllKnown(agendas, choices[..i + 1]) {
      assert choices[..i + 1][i] == choices[i];
    }
  }

  lemma StoredOnce(agendas: seq<Agenda>, prefs: Preferences, choices: seq<AgendaChoice>, i: nat)
    requires i < |choices| && AllKnown(agendas, choices[..i + 1]) && AllKnown(agendas, choices[..i])
    ensures Stored(prefs, choices[..i + 1]) == Stored(prefs, choices[..i])[choices[i].agendaID := choices[i].choiceID]
    ensures var k := AgendaOf(agendas, choices[i].agendaID);
            k < |agendas| ==>
              Updates(agendas, choices[..i + 1]) ==
              Updates(agendas, choices[..i]) + [Applied(agendas[k].mask, ChoiceBits(agendas[k].choices, choices[i].choiceID))]
  {
    assert choices[..i + 1][..i] == choices[..i];
  }

  lemma MaskedOnce(bits: bv16, applied: seq<Applied>, a: Applied)
    ensures Masked(bits, applied + [a]) == Or(Clear(Masked(bits, applied), a.mask), a.bits)
  {
    assert (applied + [a])[..|applied|] == applied;
  }
}
