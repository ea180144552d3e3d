/** The card sanitiser of `mtgtwartbot/scryfall.py`: `is_invalid`,
    `sanitise_card` and `sanitise_cards`. A raw Scryfall card record is a
    JSON object; each key the sanitiser looks at is a field of `RawCard`,
    `None` when the key is absent. */
module Sanitiser {
  import opened Wrappers
  import opened Text

  /** One raw card record, as parsed from the bulk data. `legalities` keeps
      the parsed dictionary's pairs in iteration order, each key once. */
  datatype RawCard = RawCard(
    name: Option<string>,
    manaCost: Option<string>,
    imageUris: Option<map<string, string>>,
    cmc: Option<real>,
    typeLine: Option<string>,
    colors: Option<seq<string>>,
    colorIdentity: Option<seq<string>>,
    oracleText: Option<string>,
    legalities: Option<seq<(string, string)>>,
    setCode: Option<string>,
    setName: Option<string>,
    keywords: Option<seq<string>>,
    rarity: Option<string>,
    flavorText: Option<string>)

  /** A sanitised card: the dictionary `info` built by `sanitise_card`, one
      field per key (`type` is `typeLine`, `set` is `setCode`). */
  datatype Card = Card(
    name: string,
    cost: string,
    images: map<string, string>,
    cmc: real,
    typeLine: string,
    colors: seq<string>,
    colorIdentity: seq<string>,
    text: string,
    legal: seq<string>,
    setCode: string,
    setName: string,
    keywords: seq<string>,
    rarity: string,
    flavour: string)

  /** The joke sets whose cards are never used. */
  const JokeSets: seq<string> := ["Unglued", "Unhinged", "Unstable", "Unsanctioned"]

  /** The legality value that removes a format from `legal`. */
  const NotLegal: string := "not_legal"

  /** The set name mentions one of the joke sets (case-sensitive substring). */
  ghost predicate IsJokeSetName(setName: string) {
    exists j :: 0 <= j < |JokeSets| && HasSubstring(setName, JokeSets[j])
  }

  /** No key appears twice, as in the dictionary `json.loads` builds. */
  predicate DistinctKeys(pairs: seq<(string, string)>) {
    forall i, j :: 0 <= i < j < |pairs| ==> pairs[i].0 != pairs[j].0
  }

  /** No element appears twice. */
  predicate NoRepeats(xs: seq<string>) {
    forall i, j :: 0 <= i < j < |xs| ==> xs[i] != xs[j]
  }

  /** The keys `sanitise_card` indexes without a membership test, apart from
      `set_name` and `flavor_text`, which `is_invalid` settles first. */
  predicate IndexedKeysPresent(card: RawCard) {
    && card.name.Some?
    && card.cmc.Some?
    && card.typeLine.Some?
    && card.colorIdentity.Some?
    && card.legalities.Some? && DistinctKeys(card.legalities.value)
    && card.setCode.Some?
    && card.keywords.Some?
    && card.rarity.Some?
  }

  /** What `sanitise_card` needs of a record to not raise `KeyError`:
      `set_name` always, the other indexed keys only once the card is valid. */
  predicate Sanitisable(card: RawCard) {
    card.setName.Some? && (!IsInvalid(card) ==> IndexedKeysPresent(card))
  }

  /** `is_invalid`: a joke-set card, or a card without flavour text. */
  function IsInvalid(card: RawCard): (invalid: bool)
    requires card.setName.Some?
    ensures invalid <==> IsJokeSetName(card.setName.value) || card.flavorText.None?
  {
    var setName := card.setName.value;
    ContainsIsSubstring(setName, JokeSets[0]);
    ContainsIsSubstring(setName, JokeSets[1]);
    ContainsIsSubstring(setName, JokeSets[2]);
    ContainsIsSubstring(setName, JokeSets[3]);
    if Contains(setName, JokeSets[0]) || Contains(setName, JokeSets[1])
       || Contains(setName, JokeSets[2]) || Contains(setName, JokeSets[3])
    then true
    else if card.flavorText.None? then true
    else false
  }

  /** The type line with every em-dash turned into a hyphen. */
  function NormaliseTypeLine(s: string): (r: string)
    ensures |r| == |s| && EmDash !in r
    ensures forall i :: 0 <= i < |s| ==> r[i] == (if s[i] == EmDash then '-' else s[i])
  {
    ReplaceChar(s, EmDash, '-')
  }

  /** The oracle text with em-dashes turned into hyphens and bullets into
      asterisks. */
  function NormaliseOracleText(s: string): (r: string)
    ensures |r| == |s| && EmDash !in r && Bullet !in r
    ensures forall i :: 0 <= i < |s| ==>
      r[i] == (if s[i] == EmDash then '-' else if s[i] == Bullet then '*' else s[i])
  {
    ReplaceChar(ReplaceChar(s, EmDash, '-'), Bullet, '*')
  }

  /** Any string normalised character by character from the example rules
      text is the expected one. */
  lemma OracleTextPointwise(s: string, r: string)
    requires s == "Draw a card\U{2014}then discard.\U{2022}"
    requires |r| == |s|
    requires forall i :: 0 <= i < |s| ==>
      r[i] == (if s[i] == EmDash then '-' else if s[i] == Bullet then '*' else s[i])
    ensures r == "Draw a card-then discard.*"
  {
    var expected := "Draw a card-then discard.*";
    forall i | 0 <= i < |r| ensures r[i] == expected[i] {
    }
  }

  /** A rules text with both special characters. */
  lemma OracleTextExample(s: string)
    requires s == "Draw a card\U{2014}then discard.\U{2022}"
    ensures NormaliseOracleText(s) == "Draw a card-then discard.*"
  {
    OracleTextPointwise(s, NormaliseOracleText(s));
  }

  /** The list comprehension over `legalities.items()` keeping the formats
      whose value is not "not_legal", in the dictionary's order. */
  function LegalFormats(legalities: seq<(string, string)>): (legal: seq<string>)
    requires DistinctKeys(legalities)
    ensures |legal| <= |legalities|
    ensures forall k :: k in legal <==>
      exists i :: 0 <= i < |legalities| && legalities[i].0 == k && legalities[i].1 != NotLegal
    ensures NoRepeats(legal)
  {
    if legalities == [] then []
    else
      var rest := LegalFormats(legalities[1..]);
      assert forall i :: 1 <= i < |legalities| ==> legalities[i] == legalities[1..][i - 1];
      assert legalities[0].0 !in rest;
      if legalities[0].1 != NotLegal then [legalities[0].0] + rest else rest
  }

  /** The comprehension distributes over concatenation: it keeps the
      formats in the order the legalities object lists them. */
  lemma {:induction false} LegalFormatsAppend(a: seq<(string, string)>, b: seq<(string, string)>)
    requires DistinctKeys(a) && DistinctKeys(b) && DistinctKeys(a + b)
    ensures LegalFormats(a + b) == LegalFormats(a) + LegalFormats(b)
  {
    if a != [] {
      assert (a + b)[1..] == a[1..] + b;
      assert forall i :: 0 <= i < |a[1..] + b| ==> (a[1..] + b)[i] == (a + b)[i + 1];
      LegalFormatsAppend(a[1..], b);
    } else {
      assert a + b == b;
    }
  }

  /** "banned" is kept, "not_legal" is dropped. */
  lemma LegalFormatsKeepsBanned()
    ensures LegalFormats([("standard", "legal"), ("historic", "banned"), ("pauper", "not_legal")])
            == ["standard", "historic"]
  {
  }

  /** `sanitise_card`: `None` for an invalid card, otherwise the trimmed
      record with defaults for the optional keys and normalised text. */
  function Sanitised(card: RawCard): (r: Option<Card>)
    requires Sanitisable(card)
    ensures r.None? <==> IsInvalid(card)
    ensures r.Some? ==>
      && r.value.flavour == card.flavorText.value
      && r.value.setName == card.setName.value
      && !IsJokeSetName(r.value.setName)
  {
    if IsInvalid(card) then None
    else
      Some(Card(
        name := card.name.value,
        cost := card.manaCost.GetOr(""),
        images := card.imageUris.GetOr(map[]),
        cmc := card.cmc.value,
        typeLine := NormaliseTypeLine(card.typeLine.value),
        colors := card.colors.GetOr([]),
        colorIdentity := card.colorIdentity.value,
        text := if card.oracleText.Some? then NormaliseOracleText(card.oracleText.value) else "",
        legal := LegalFormats(card.legalities.value),
        setCode := card.setCode.value,
        setName := card.setName.value,
        keywords := card.keywords.value,
        rarity := card.rarity.value,
        flavour := card.flavorText.value))
  }

  /** The fields of a valid card's sanitised record: indexed keys copied,
      optional keys defaulted or copied, text normalised, legal formats. */
  lemma SanitisedFields(card: RawCard)
    requires Sanitisable(card) && !IsInvalid(card)
    ensures var c := Sanitised(card).value;
      && c.name == card.name.value
      && c.cmc == card.cmc.value
      && c.colorIdentity == card.colorIdentity.value
      && c.setCode == card.setCode.value
      && c.keywords == card.keywords.value
      && c.rarity == card.rarity.value
    // optional keys: a default when absent, the value itself when present
    ensures var c := Sanitised(card).value;
      && (card.manaCost.None? ==> c.cost == "")
      && (card.manaCost.Some? ==> c.cost == card.manaCost.value)
      && (card.imageUris.None? ==> c.images == map[])
      && (card.imageUris.Some? ==> c.images == card.imageUris.value)
      && (card.colors.None? ==> c.colors == [])
      && (card.colors.Some? ==> c.colors == card.colors.value)
      && (card.oracleText.None? ==> c.text == "")
    // text normalisation: same length, only the two characters change
    ensures var c := Sanitised(card).value;
      var typeLine := card.typeLine.value;
      && |c.typeLine| == |typeLine|
      && EmDash !in c.typeLine
      && forall i :: 0 <= i < |typeLine| ==>
           c.typeLine[i] == (if typeLine[i] == EmDash then '-' else typeLine[i])
    ensures var c := Sanitised(card).value; card.oracleText.Some? ==>
      var text := card.oracleText.value;
      && |c.text| == |text|
      && EmDash !in c.text && Bullet !in c.text
      && forall i :: 0 <= i < |text| ==>
           c.text[i] == (if text[i] == EmDash then '-' else if text[i] == Bullet then '*' else text[i])
    ensures var c := Sanitised(card).value;
      var legalities := card.legalities.value;
      && NoRepeats(c.legal)
      && forall k :: k in c.legal <==>
           exists i :: 0 <= i < |legalities| && legalities[i].0 == k && legalities[i].1 != NotLegal
  {
  }

  /** `sanitise_card` as written: the validity test, then `info` filled one
      key at a time. */
  method SanitiseCard(card: RawCard) returns (info: Option<Card>)
    requires Sanitisable(card)
    ensures info == Sanitised(card)
  {
    if IsInvalid(card) {
      return None;
    }
    var name := card.name.value;
    var cost := if card.manaCost.Some? then card.manaCost.value else "";
    var images := if card.imageUris.Some? then card.imageUris.value else map[];
    var cmc := card.cmc.value;
    var typeLine := NormaliseTypeLine(card.typeLine.value);
    var colors := if card.colors.Some? then card.colors.value else [];
    var colorIdentity := card.colorIdentity.value;
    var text := if card.oracleText.Some? then NormaliseOracleText(card.oracleText.value) else "";
    var legal := LegalFormats(card.legalities.value);
    var setCode := card.setCode.value;
    var setName := card.setName.value;
    var keywords := card.keywords.value;
    var rarity := card.rarity.value;
    var flavour := card.flavorText.value;
    info := Some(Card(name, cost, images, cmc, typeLine, colors, colorIdentity,
                      text, legal, setCode, setName, keywords, rarity, flavour));
  }

  /** Every record of a batch can be given to `sanitise_card`. */
  predicate AllSanitisable(cards: seq<RawCard>) {
    forall i :: 0 <= i < |cards| ==> Sanitisable(cards[i])
  }

  /** The cards `sanitise_cards` returns: the non-`None` results of
      `sanitise_card`, in input order. */
  function SanitisedAll(cards: seq<RawCard>): (r: seq<Card>)
    requires AllSanitisable(cards)
    ensures |r| <= |cards|
    ensures forall c :: c in r ==> !IsJokeSetName(c.setName)
  {
    if cards == [] then []
    else
      var last := cards[|cards| - 1];
      var rest := SanitisedAll(cards[..|cards| - 1]);
      match Sanitised(last)
      case Some(c) => rest + [c]
      case None => rest
  }

  /** The positions of the valid records, in increasing order. */
  ghost function KeptIndices(cards: seq<RawCard>): (idx: seq<nat>)
    requires AllSanitisable(cards)
    ensures forall k :: 0 <= k < |idx| ==> idx[k] < |cards| && !IsInvalid(cards[idx[k]])
    ensures forall k, l :: 0 <= k < l < |idx| ==> idx[k] < idx[l]
    ensures forall i :: 0 <= i < |cards| && !IsInvalid(cards[i]) ==> i in idx
  {
    if cards == [] then []
    else
      var n := |cards| - 1;
      var rest := KeptIndices(cards[..n]);
      assert forall i :: 0 <= i < n ==> cards[..n][i] == cards[i];
      if IsInvalid(cards[n]) then rest else rest + [n]
  }

  /** `sanitise_cards` returns exactly the in-order subsequence of the
      non-`None` results: its k-th card is the sanitised form of the k-th
      valid record. */
  lemma {:induction false} SanitisedAllIsFilter(cards: seq<RawCard>)
    requires AllSanitisable(cards)
    ensures |SanitisedAll(cards)| == |KeptIndices(cards)|
    ensures forall k :: 0 <= k < |KeptIndices(cards)| ==>
      Sanitised(cards[KeptIndices(cards)[k]]) == Some(SanitisedAll(cards)[k])
  {
    if cards != [] {
      var n := |cards| - 1;
      var prefix := cards[..n];
      SanitisedAllIsFilter(prefix);
      var idx, idx0 := KeptIndices(cards), KeptIndices(prefix);
      var out, out0 := SanitisedAll(cards), SanitisedAll(prefix);
      forall k | 0 <= k < |idx0| ensures Sanitised(cards[idx0[k]]) == Some(out0[k]) {
        assert prefix[idx0[k]] == cards[idx0[k]];
      }
      if IsInvalid(cards[n]) {
        assert idx == idx0 && out == out0;
      } else {
        assert idx == idx0 + [n];
        assert out == out0 + [Sanitised(cards[n]).value];
        forall k | 0 <= k < |idx| ensures Sanitised(cards[idx[k]]) == Some(out[k]) {
          if k < |idx0| {
            assert idx[k] == idx0[k] && out[k] == out0[k];
          }
        }
      }
    }
  }

  /** The number of cards kept is the number of valid records. */
  lemma {:induction false} SanitisedAllCount(cards: seq<RawCard>)
    requires AllSanitisable(cards)
    ensures |SanitisedAll(cards)| == |ValidPositions(cards)|
  {
    if cards != [] {
      var n := |cards| - 1;
      SanitisedAllCount(cards[..n]);
      ValidPositionsStep(cards);
    }
  }

  /** The positions of the records `is_invalid` accepts. */
  ghost function ValidPositions(cards: seq<RawCard>): set<nat>
    requires AllSanitisable(cards)
  {
    set i | 0 <= i < |cards| && !IsInvalid(cards[i])
  }

  /** Adding a record at the end adds its position when it is valid. */
  lemma ValidPositionsStep(cards: seq<RawCard>)
    requires AllSanitisable(cards) && cards != []
    ensures var n := |cards| - 1;
      |ValidPositions(cards)| == |ValidPositions(cards[..n])| + (if IsInvalid(cards[n]) then 0 else 1)
  {
    var n := |cards| - 1;
    var prefix := cards[..n];
    var before, after := ValidPositions(prefix), ValidPositions(cards);
    var grown := if IsInvalid(cards[n]) then before else before + {n};
    forall i | i in after ensures i in grown {
      if i < n { assert prefix[i] == cards[i]; }
    }
    forall i | i in grown ensures i in after {
      if i < n { assert prefix[i] == cards[i]; }
    }
    assert after == grown;
  }

  /** Every output card comes from some input record. */
  lemma {:induction false} SanitisedAllFrom(cards: seq<RawCard>, c: Card) returns (i: nat)
    requires AllSanitisable(cards)
    requires c in SanitisedAll(cards)
    ensures i < |cards| && Sanitised(cards[i]) == Some(c)
  {
    var n := |cards| - 1;
    var prefix := cards[..n];
    var out0 := SanitisedAll(prefix);
    if c in out0 {
      i := SanitisedAllFrom(prefix, c);
      assert prefix[i] == cards[i];
    } else {
      i := n;
    }
  }

  /** Every valid input record's sanitised card is in the output. */
  lemma {:induction false} SanitisedAllKeeps(cards: seq<RawCard>, i: nat)
    requires AllSanitisable(cards)
    requires i < |cards| && !IsInvalid(cards[i])
    ensures Sanitised(cards[i]).value in SanitisedAll(cards)
  {
    var n := |cards| - 1;
    var prefix := cards[..n];
    var out, out0 := SanitisedAll(cards), SanitisedAll(prefix);
    assert out == out0 + (if IsInvalid(cards[n]) then [] else [Sanitised(cards[n]).value]);
    if i < n {
      assert prefix[i] == cards[i];
      SanitisedAllKeeps(prefix, i);
    }
  }

  /** A card is in the output exactly when some input record sanitises to it. */
  lemma SanitisedAllMembers(cards: seq<RawCard>, c: Card)
    requires AllSanitisable(cards)
    ensures c in SanitisedAll(cards) <==> exists i :: 0 <= i < |cards| && Sanitised(cards[i]) == Some(c)
  {
    if c in SanitisedAll(cards) {
      var i := SanitisedAllFrom(cards, c);
    }
    if exists i :: 0 <= i < |cards| && Sanitised(cards[i]) == Some(c) {
      var i :| 0 <= i < |cards| && Sanitised(cards[i]) == Some(c);
      SanitisedAllKeeps(cards, i);
    }
  }

  /** Sanitising a concatenation concatenates the results: the output
      keeps the relative order of the input. */
  lemma {:induction false} SanitisedAllAppend(a: seq<RawCard>, b: seq<RawCard>)
    requires AllSanitisable(a) && AllSanitisable(b)
    ensures AllSanitisable(a + b)
    ensures SanitisedAll(a + b) == SanitisedAll(a) + SanitisedAll(b)
    decreases |b|
  {
    if b != [] {
      var n := |b| - 1;
      assert (a + b)[..|a + b| - 1] == a + b[..n];
      SanitisedAllAppend(a, b[..n]);
      assert (a + b)[|a + b| - 1] == b[n];
    } else {
      assert a + b == a;
    }
  }

  /** `sanitise_cards`: the loop that appends every non-`None` result. */
  method SanitiseCards(cards: seq<RawCard>) returns (sanitised: seq<Card>)
    requires AllSanitisable(cards)
    ensures sanitised == SanitisedAll(cards)
  {
    sanitised := [];
    for i := 0 to |cards|
      invariant sanitised == SanitisedAll(cards[..i])
    {
      var card := SanitiseCard(cards[i]);
      assert cards[..i + 1][..i] == cards[..i];
      if card.Some? {
        sanitised := sanitised + [card.value];
      }
    }
    assert cards[..|cards|] == cards;
  }
}
