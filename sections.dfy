/**
 * `parse_gemini_response`: the six-entry result dict, the `if/elif` chain that maps a
 * heading to an entry, and the loop over the matches of the heading scan.
 */
module Sections {
  import opened Wrappers
  import opened Text
  import opened Scanner

  /** The value every entry starts with and keeps when no heading sets it. */
  const Fallback := "No information provided."

  /** The six entries of the result, in the order of the `if/elif` chain. */
  datatype Field =
    | GivenSymptoms
    | PossibleCauses
    | Cure
    | PrecautionsOrPreventions
    | ExpertAdvice
    | EmergencyLevel

  /** The dict key of an entry. */
  function Key(f: Field): string
  {
    match f
    case GivenSymptoms => "given_symptoms"
    case PossibleCauses => "possible_causes"
    case Cure => "cure"
    case PrecautionsOrPreventions => "precautions_or_preventions"
    case ExpertAdvice => "expert_advice"
    case EmergencyLevel => "emergency_level"
  }

  /** The phrase whose presence in an upper-cased heading selects an entry. */
  function Phrase(f: Field): string
  {
    match f
    case GivenSymptoms => "GIVEN SYMPTOMS"
    case PossibleCauses => "POSSIBLE CAUSES"
    case Cure => "CURE"
    case PrecautionsOrPreventions => "PRECAUTIONS OR PREVENTIONS"
    case ExpertAdvice => "EXPERT ADVICE"
    case EmergencyLevel => "EMERGENCY LEVEL"
  }

  /** The position of an entry's test in the `if/elif` chain. */
  function Rank(f: Field): nat
  {
    match f
    case GivenSymptoms => 0
    case PossibleCauses => 1
    case Cure => 2
    case PrecautionsOrPreventions => 3
    case ExpertAdvice => 4
    case EmergencyLevel => 5
  }

  /** The keys of the result dict. */
  const Keys: set<string> :=
    {Key(GivenSymptoms), Key(PossibleCauses), Key(Cure),
     Key(PrecautionsOrPreventions), Key(ExpertAdvice), Key(EmergencyLevel)}

  /** Every entry's key is one of the six. */
  lemma KeysComplete()
    ensures forall f :: Key(f) in Keys
  {
    forall f ensures Key(f) in Keys {
      match f
      case GivenSymptoms =>
      case PossibleCauses =>
      case Cure =>
      case PrecautionsOrPreventions =>
      case ExpertAdvice =>
      case EmergencyLevel =>
    }
  }

  /** Distinct entries have distinct keys. */
  lemma KeyInjective()
    ensures forall f, g :: Key(f) == Key(g) ==> f == g
  {
    forall f, g ensures Key(f) == Key(g) ==> f == g {
      if Key(f) == Key(g) {
        assert |Key(f)| == |Key(g)| && Key(f)[0] == Key(g)[0] && Key(f)[1] == Key(g)[1];
      }
    }
  }

  /** The dict before the loop: every entry holds the fallback text. */
  function Initial(): (m: map<string, string>)
    ensures m.Keys == Keys
    ensures forall f :: m[Key(f)] == Fallback
  {
    map[Key(GivenSymptoms) := Fallback, Key(PossibleCauses) := Fallback, Key(Cure) := Fallback,
        Key(PrecautionsOrPreventions) := Fallback, Key(ExpertAdvice) := Fallback,
        Key(EmergencyLevel) := Fallback]
  }

  /** The entries in the order the `if/elif` chain tests them. */
  const Chain: seq<Field> :=
    [GivenSymptoms, PossibleCauses, Cure, PrecautionsOrPreventions, ExpertAdvice, EmergencyLevel]

  /** `Rank` is each entry's position in the chain. */
  lemma ChainRank()
    ensures |Chain| == 6
    ensures forall f :: Rank(f) < 6 && Chain[Rank(f)] == f
    ensures forall i :: 0 <= i < 6 ==> Rank(Chain[i]) == i
  {
  }

  /**
   * The `if/elif` chain on an already stripped and upper-cased heading: the first entry,
   * in chain order, whose phrase occurs in the heading; none when no phrase occurs.
   */
  function Classify(header: string): Option<Field>
  {
    ClassifyFrom(header, 0)
  }

  /** The chain from its `i`-th test on. */
  function ClassifyFrom(header: string, i: nat): Option<Field>
    decreases |Chain| - i
  {
    if i >= |Chain| then None
    else if Contains(header, Phrase(Chain[i])) then Some(Chain[i])
    else ClassifyFrom(header, i + 1)
  }

  /**
   * The chain picks an entry whose phrase occurs in the heading, and no entry tested
   * before it has its phrase there; it picks nothing exactly when no phrase occurs.
   */
  lemma ClassifySpec(header: string)
    ensures Classify(header).Some? ==> Contains(header, Phrase(Classify(header).value))
    ensures Classify(header).Some? ==>
      forall g :: Rank(g) < Rank(Classify(header).value) ==> !Contains(header, Phrase(g))
    ensures Classify(header).None? <==> forall g :: !Contains(header, Phrase(g))
  {
    ClassifyFromSpec(header, 0);
  }

  lemma {:induction false} ClassifyFromSpec(header: string, i: nat)
    ensures ClassifyFrom(header, i).Some? ==>
      Contains(header, Phrase(ClassifyFrom(header, i).value)) && i <= Rank(ClassifyFrom(header, i).value)
    ensures ClassifyFrom(header, i).Some? ==>
      forall g :: i <= Rank(g) < Rank(ClassifyFrom(header, i).value) ==> !Contains(header, Phrase(g))
    ensures ClassifyFrom(header, i).None? <==> forall g :: i <= Rank(g) ==> !Contains(header, Phrase(g))
    decreases |Chain| - i
  {
    ChainRank();
    if i < |Chain| {
      ClassifyFromSpec(header, i + 1);
      forall g | Rank(g) == i ensures g == Chain[i] {
      }
    }
  }

  /**
   * Conversely, an entry whose phrase occurs in the heading while no phrase tested
   * before it does is the one the chain picks.
   */
  lemma ClassifyPicks(header: string, f: Field)
    requires Contains(header, Phrase(f))
    requires forall g :: Rank(g) < Rank(f) ==> !Contains(header, Phrase(g))
    ensures Classify(header) == Some(f)
  {
    ClassifySpec(header);
  }

  /**
   * A heading that is exactly an entry's phrase selects that entry: the phrase is already
   * stripped and upper-case, and no phrase tested before it in the chain occurs inside it.
   */
  lemma PhraseSelects(f: Field)
    ensures Classify(Upper(Strip(Phrase(f)))) == Some(f)
  {
    PhraseUpper(f);
    PhraseStripped(f);
    ClassifyPhrase(f);
  }

  lemma PhraseUpper(f: Field)
    ensures Upper(Phrase(f)) == Phrase(f)
  {
    UpperKeeps(Phrase(f));
  }

  lemma PhraseStripped(f: Field)
    ensures Strip(Phrase(f)) == Phrase(f)
  {
    StripTrimmed(Phrase(f));
  }

  /** The chain applied to a phrase itself picks that phrase's entry. */
  lemma ClassifyPhrase(f: Field)
    ensures Classify(Phrase(f)) == Some(f)
  {
    ContainsSelf(Phrase(f));
    forall g | Rank(g) < Rank(f) ensures !Contains(Phrase(f), Phrase(g)) {
      EarlierPhraseAbsent(f, g);
    }
    ClassifyPicks(Phrase(f), f);
  }

  /** No phrase occurs inside a phrase tested after it. */
  lemma EarlierPhraseAbsent(f: Field, g: Field)
    requires Rank(g) < Rank(f)
    ensures !Contains(Phrase(f), Phrase(g))
  {
    match f
    case PossibleCauses => MissingCharNotContained(Phrase(f), Phrase(g), 0);
    case PrecautionsOrPreventions => AbsentFromPrecautions(g);
    case ExpertAdvice =>
      if g == Cure {
        MissingCharNotContained(Phrase(f), Phrase(g), 1);
      } else {
        LongerNotContained(Phrase(f), Phrase(g));
      }
    case EmergencyLevel => AbsentFromEmergencyLevel(g);
    case Cure => LongerNotContained(Phrase(f), Phrase(g));
  }

  lemma AbsentFromPrecautions(g: Field)
    requires Rank(g) < Rank(PrecautionsOrPreventions)
    ensures !Contains(Phrase(PrecautionsOrPreventions), Phrase(g))
  {
    match g
    case GivenSymptoms => MissingCharNotContained(Phrase(PrecautionsOrPreventions), Phrase(g), 0);
    case PossibleCauses => MissingCharNotContained(Phrase(PrecautionsOrPreventions), Phrase(g), 5);
    case Cure => CureNotInPrecautions();
  }

  lemma AbsentFromEmergencyLevel(g: Field)
    requires Rank(g) < Rank(EmergencyLevel)
    ensures !Contains(Phrase(EmergencyLevel), Phrase(g))
  {
    EmergencyLevelLacks();
    match g
    case GivenSymptoms =>
      assert Phrase(g)[6] == 'S';
      MissingCharNotContained(Phrase(EmergencyLevel), Phrase(g), 6);
    case PossibleCauses =>
      assert Phrase(g)[0] == 'P';
      MissingCharNotContained(Phrase(EmergencyLevel), Phrase(g), 0);
    case Cure =>
      assert Phrase(g)[1] == 'U';
      MissingCharNotContained(Phrase(EmergencyLevel), Phrase(g), 1);
    case PrecautionsOrPreventions => LongerNotContained(Phrase(EmergencyLevel), Phrase(g));
    case ExpertAdvice =>
      assert Phrase(g)[1] == 'X';
      MissingCharNotContained(Phrase(EmergencyLevel), Phrase(g), 1);
  }

  /** Letters of the earlier phrases that `EMERGENCY LEVEL` does not hold. */
  lemma EmergencyLevelLacks()
    ensures 'S' !in Phrase(EmergencyLevel) && 'P' !in Phrase(EmergencyLevel)
    ensures 'U' !in Phrase(EmergencyLevel) && 'X' !in Phrase(EmergencyLevel)
  {
  }

  /** The only `C` of the precautions phrase is followed by `A`, so `CURE` is not in it. */
  lemma CureNotInPrecautions()
    ensures !Contains(Phrase(PrecautionsOrPreventions), Phrase(Cure))
  {
    assert Phrase(PrecautionsOrPreventions) == "PRE" + ['C'] + "AUTIONS OR PREVENTIONS";
    SoleStartNotContained("PRE", 'C', "AUTIONS OR PREVENTIONS", Phrase(Cure));
  }

  /** The entry a match writes to: its header is stripped and upper-cased, then classified. */
  function Target(m: Match): Option<Field>
  {
    Classify(Upper(Strip(m.header)))
  }

  /**
   * One pass of the loop: the entry the heading selects, if any, is overwritten with the
   * stripped body.
   */
  function Apply(sections: map<string, string>, m: Match): map<string, string>
  {
    match Target(m)
    case None => sections
    case Some(f) => sections[Key(f) := Strip(m.body)]
  }

  /**
   * What one pass changes: only the selected entry, which then holds the stripped body;
   * a heading that selects nothing changes nothing, and no key is lost.
   */
  lemma ApplyEffect(sections: map<string, string>, m: Match)
    ensures Target(m).None? ==> Apply(sections, m) == sections
    ensures Target(m).Some? ==> Apply(sections, m)[Key(Target(m).value)] == Strip(m.body)
    ensures sections.Keys <= Apply(sections, m).Keys
    ensures Keys <= sections.Keys ==> Apply(sections, m).Keys == sections.Keys
    ensures forall g :: Key(g) in sections && Target(m) != Some(g) ==> Apply(sections, m)[Key(g)] == sections[Key(g)]
  {
    var t := Target(m);
    var r := Apply(sections, m);
    assert t.None? ==> r == sections;
    assert t.Some? ==> r == sections[Key(t.value) := Strip(m.body)];
    UpdateEffect(sections, t, Strip(m.body), r);
  }

  lemma UpdateEffect(sections: map<string, string>, t: Option<Field>, v: string, r: map<string, string>)
    requires t.None? ==> r == sections
    requires t.Some? ==> r == sections[Key(t.value) := v]
    ensures t.Some? ==> r[Key(t.value)] == v
    ensures sections.Keys <= r.Keys
    ensures Keys <= sections.Keys ==> r.Keys == sections.Keys
    ensures forall g :: Key(g) in sections && t != Some(g) ==> r[Key(g)] == sections[Key(g)]
  {
    KeyInjective();
    KeysComplete();
  }

  /** The dict after the loop has run over `ms` in order, starting from `sections`. */
  function ApplyAll(sections: map<string, string>, ms: seq<Match>): map<string, string>
    decreases |ms|
  {
    if ms == [] then sections
    else Apply(ApplyAll(sections, ms[..|ms| - 1]), ms[|ms| - 1])
  }

  /** The loop never adds a key outside the six nor drops one. */
  lemma {:induction false} ApplyAllKeys(sections: map<string, string>, ms: seq<Match>)
    requires Keys <= sections.Keys
    ensures ApplyAll(sections, ms).Keys == sections.Keys
    decreases |ms|
  {
    if ms != [] {
      ApplyAllKeys(sections, ms[..|ms| - 1]);
      ApplyEffect(ApplyAll(sections, ms[..|ms| - 1]), ms[|ms| - 1]);
    }
  }

  /** `parse_gemini_response(text)` as a value. */
  function Parse(text: string): map<string, string>
  {
    ApplyAll(Initial(), FindAll(text))
  }

  /** The match at index `i` sets entry `f` and no later match does. */
  predicate LastSetter(ms: seq<Match>, f: Field, i: int)
  {
    0 <= i < |ms| && Target(ms[i]) == Some(f) && forall j :: i < j < |ms| ==> Target(ms[j]) != Some(f)
  }

  /** No match sets entry `f`. */
  predicate NeverSet(ms: seq<Match>, f: Field)
  {
    forall j :: 0 <= j < |ms| ==> Target(ms[j]) != Some(f)
  }

  /** An entry that no match sets keeps the value it started with. */
  lemma {:induction false} NeverSetKeepsValue(sections: map<string, string>, ms: seq<Match>, f: Field)
    requires Key(f) in sections
    requires NeverSet(ms, f)
    ensures Key(f) in ApplyAll(sections, ms) && ApplyAll(sections, ms)[Key(f)] == sections[Key(f)]
    decreases |ms|
  {
    if ms != [] {
      NeverSetKeepsValue(sections, ms[..|ms| - 1], f);
      ApplyEffect(ApplyAll(sections, ms[..|ms| - 1]), ms[|ms| - 1]);
    }
  }

  /** When several matches set one entry, the last of them in text order decides its value. */
  lemma {:induction false} LastSetterWins(sections: map<string, string>, ms: seq<Match>, f: Field, i: int)
    requires Key(f) in sections
    requires LastSetter(ms, f, i)
    ensures Key(f) in ApplyAll(sections, ms) && ApplyAll(sections, ms)[Key(f)] == Strip(ms[i].body)
    decreases |ms|
  {
    ApplyEffect(ApplyAll(sections, ms[..|ms| - 1]), ms[|ms| - 1]);
    if i < |ms| - 1 {
      LastSetterWins(sections, ms[..|ms| - 1], f, i);
    }
  }

  /**
   * The loop of `parse_gemini_response`: for each `(header, content)` pair in order,
   * overwrite the entry selected by the `if/elif` chain applied to the stripped,
   * upper-cased header with the stripped content.
   */
  method ApplyMatches(init: map<string, string>, matches: seq<Match>) returns (sections: map<string, string>)
    ensures sections == ApplyAll(init, matches)
  {
    sections := init;
    for i := 0 to |matches|
      invariant sections == ApplyAll(init, matches[..i])
    {
      ghost var before := sections;
      var header := Upper(Strip(matches[i].header));
      match Classify(header) {
        case Some(f) => sections := sections[Key(f) := Strip(matches[i].body)];
        case None =>
      }
      assert sections == Apply(before, matches[i]);
      ApplyAllStep(init, matches, i);
    }
    assert matches[..|matches|] == matches;
  }

  /** Running the loop one pair further applies that pair to the dict so far. */
  lemma ApplyAllStep(init: map<string, string>, ms: seq<Match>, i: int)
    requires 0 <= i < |ms|
    ensures ApplyAll(init, ms[..i + 1]) == Apply(ApplyAll(init, ms[..i]), ms[i])
  {
    assert ms[..i + 1][..i] == ms[..i];
  }

  /**
   * `parse_gemini_response`: start from the fallback dict and run the loop over the
   * pairs the heading scan finds. What the result holds entry by entry is stated about
   * `Parse` in `ParseEntries`.
   */
  method ParseGeminiResponse(text: string) returns (sections: map<string, string>)
    ensures sections == Parse(text)
  {
    var matches := FindAll(text);
    sections := ApplyMatches(Initial(), matches);
  }

  /**
   * Totality and the value of each entry: whatever the text, the result holds exactly the
   * six keys; an entry that no heading selects holds the fallback text, and any other
   * holds the stripped body of the last heading that selects it.
   */
  lemma ParseEntries(text: string)
    ensures Parse(text).Keys == Keys && forall f :: Key(f) in Parse(text)
    ensures forall f :: NeverSet(FindAll(text), f) ==> Parse(text)[Key(f)] == Fallback
    ensures forall f, i :: LastSetter(FindAll(text), f, i) ==> Parse(text)[Key(f)] == Strip(FindAll(text)[i].body)
  {
    KeysComplete();
    ApplyAllKeys(Initial(), FindAll(text));
    forall f | NeverSet(FindAll(text), f) ensures Parse(text)[Key(f)] == Fallback {
      NeverSetKeepsValue(Initial(), FindAll(text), f);
    }
    forall f, i | LastSetter(FindAll(text), f, i) ensures Parse(text)[Key(f)] == Strip(FindAll(text)[i].body) {
      LastSetterWins(Initial(), FindAll(text), f, i);
    }
  }

  /**
   * Text in which the pattern matches nowhere (in particular the empty text and any text
   * without `###`) gives the fallback in all six entries.
   */
  lemma ParseWithoutHeadings(text: string)
    requires forall p :: 0 <= p < |text| ==> !MatchStart(text, p)
    ensures Parse(text) == Initial()
  {
    NothingToFind(text);
    NoMatchesNoChange(text);
  }

  lemma NoMatchesNoChange(text: string)
    requires FindAll(text) == []
    ensures Parse(text) == Initial()
  {
  }
}
