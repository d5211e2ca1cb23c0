/**
 The categorised tag cloud of the "Technical Skills" card: the skill
 groups, the flattened token cycle the typewriter runs over, the chip
 highlight and the chip text size.
 */
module Cloud {
  import opened Text
  import opened Skills
  import opened Typewriter

  /** A skill group: its category title (`k` in the source) and its raw
      comma-separated skill text (`v`). */
  datatype Group = Group(title: string, raw: string)

  /** `GROUPS.flatMap((g) => splitSkills(g.v))`: the tokens of every group,
      in group order and then in order within the group. Every token of
      the cycle is non-empty and already trimmed. */
  function AllTokens(groups: seq<Group>): (r: seq<string>)
    ensures forall t | t in r :: t != [] && Trim(t) == t
    decreases |groups|
  {
    if groups == [] then []
    else
      TokensAreClean(groups[0].raw);
      Tokens(groups[0].raw) + AllTokens(groups[1..])
  }

  /** Flattening distributes over the group list. */
  lemma {:induction false} AllTokensAppend(g1: seq<Group>, g2: seq<Group>)
    ensures AllTokens(g1 + g2) == AllTokens(g1) + AllTokens(g2)
    decreases |g1|
  {
    if g1 == [] {
      assert g1 + g2 == g2;
    } else {
      assert (g1 + g2)[0] == g1[0] && (g1 + g2)[1..] == g1[1..] + g2;
      AllTokensAppend(g1[1..], g2);
    }
  }

  /** The cycle holds exactly the chips of the cloud: a string is a token
      of the cycle iff some group renders it as a chip. */
  lemma {:induction false} AllTokensMember(groups: seq<Group>, t: string)
    ensures t in AllTokens(groups) <==>
      exists gi | 0 <= gi < |groups| :: t in Tokens(groups[gi].raw)
    decreases |groups|
  {
    if groups != [] {
      AllTokensMember(groups[1..], t);
      if t in Tokens(groups[0].raw) {
        assert t in AllTokens(groups);
      }
      if exists gi | 0 <= gi < |groups| :: t in Tokens(groups[gi].raw) {
        var gi :| 0 <= gi < |groups| && t in Tokens(groups[gi].raw);
        if gi > 0 {
          assert groups[1..][gi - 1] == groups[gi];
        }
      }
      if exists gi | 0 <= gi < |groups[1..]| :: t in Tokens(groups[1..][gi].raw) {
        var gi :| 0 <= gi < |groups[1..]| && t in Tokens(groups[1..][gi].raw);
        assert groups[gi + 1] == groups[1..][gi];
      }
    }
  }

  /** Every token of the cycle is clean and holds no top-level comma. */
  lemma {:induction false} AllTokensClean(groups: seq<Group>)
    ensures forall t | t in AllTokens(groups) ::
      t != [] && Trim(t) == t && NoTopComma(t, 0)
    decreases |groups|
  {
    if groups != [] {
      AllTokensClean(groups[1..]);
      TokensNoTopComma(groups[0].raw);
    }
  }

  /** `tag === current`: a chip is highlighted while its text is the token
      being typed, paused on or deleted. Only a token of the cycle can be
      highlighted; with an empty cycle only the empty text would be. */
  predicate IsActive(tag: string, all: seq<string>, idx: nat): (r: bool)
    ensures r && |all| > 0 ==> tag in all
    ensures |all| == 0 ==> (r <==> tag == "")
  {
    tag == Current(all, idx)
  }

  /** With at least one token, some chip of the cloud is highlighted at
      every moment: the current token is the chip it came from. */
  lemma SomeChipActive(groups: seq<Group>, idx: nat)
    requires |AllTokens(groups)| > 0
    ensures exists gi, ti | 0 <= gi < |groups| && 0 <= ti < |Tokens(groups[gi].raw)| ::
      IsActive(Tokens(groups[gi].raw)[ti], AllTokens(groups), idx)
  {
    var all := AllTokens(groups);
    var t := Current(all, idx);
    AllTokensMember(groups, t);
    var gi :| 0 <= gi < |groups| && t in Tokens(groups[gi].raw);
    var ti :| 0 <= ti < |Tokens(groups[gi].raw)| && Tokens(groups[gi].raw)[ti] == t;
    assert IsActive(Tokens(groups[gi].raw)[ti], all, idx);
  }

  /** With no token at all the cloud renders no chip, the current token
      reads as "" and nothing is highlighted. */
  lemma {:induction false} NoTokensNoChips(groups: seq<Group>, idx: nat)
    requires |AllTokens(groups)| == 0
    ensures forall gi | 0 <= gi < |groups| :: Tokens(groups[gi].raw) == []
    ensures Current(AllTokens(groups), idx) == ""
  {
    forall gi | 0 <= gi < |groups|
      ensures Tokens(groups[gi].raw) == []
    {
      if Tokens(groups[gi].raw) != [] {
        AllTokensMember(groups, Tokens(groups[gi].raw)[0]);
      }
    }
  }

  /** A highlighted chip is never empty, and what the prompt shows at a
      reachable moment is a prefix of the highlighted chip's text. */
  lemma ActiveChipIsTyped(groups: seq<Group>, n: nat, tag: string)
    requires tag in AllTokens(groups)
    requires IsActive(tag, AllTokens(groups), Run(Start, AllTokens(groups), n).idx)
    ensures tag != []
    ensures Run(Start, AllTokens(groups), n).shown <= tag
  {
    AllTokensClean(groups);
    ReachableIsConsistent(AllTokens(groups), n);
  }

  // ---------------------------------------------------------------------
  // Chip text size

  const LargeText := "text-xl md:text-2xl"
  const MediumText := "text-lg"
  const BaseText := "text-base"

  /** `sizeFor(tag)`: short tags are set larger. */
  function SizeFor(tag: string): (r: string)
    ensures r in {LargeText, MediumText, BaseText}
  {
    if |tag| <= 4 then LargeText
    else if |tag| <= 8 then MediumText
    else BaseText
  }

  /* The order of the three sizes, largest first. */
  function SizeRank(size: string): nat {
    if size == LargeText then 2 else if size == MediumText then 1 else 0
  }

  /** A longer tag is never set in a larger size than a shorter one. */
  lemma SizeForMonotone(a: string, b: string)
    requires |a| <= |b|
    ensures SizeRank(SizeFor(b)) <= SizeRank(SizeFor(a))
  {
  }
}
