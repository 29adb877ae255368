/** The search box and type selector of the card list page: the page keeps
    the cards whose name contains the search term, ignoring case, and whose
    type is the selected one, where an empty selection means every type. */
module Home {
  import opened Cards
  import opened JsString

  /** The page's two pieces of UI state. */
  datatype HomeState = HomeState(searchTerm: string, selectedType: string)

  /** What the page starts with: nothing typed, "All Types" selected. */
  const InitialState := HomeState("", "")

  /** The filter callback: a case-insensitive name search and an exact,
      case-sensitive type comparison that the empty type switches off. */
  predicate Matches(card: Card, searchTerm: string, selectedType: string): (r: bool)
    ensures r <==> OccursIn(ToLower(card.name), ToLower(searchTerm))
                   && (selectedType != "" ==> card.cardType == selectedType)
  {
    var name, term := ToLower(card.name), ToLower(searchTerm);
    ContainsIffOccurs(name, term);
    var nameMatch := Contains(name, term);
    var typeMatch := selectedType == "" || card.cardType == selectedType;
    nameMatch && typeMatch
  }

  /** `cards.filter(...)`: the matching cards, in their input order. */
  function FilterCards(cards: seq<Card>, searchTerm: string, selectedType: string): (r: seq<Card>)
    ensures |r| <= |cards|
    ensures forall c :: c in r ==> c in cards
    ensures forall c :: c in r ==> Contains(ToLower(c.name), ToLower(searchTerm))
    ensures forall c :: c in r && selectedType != "" ==> c.cardType == selectedType
    ensures forall c :: c in cards && Matches(c, searchTerm, selectedType) ==> c in r
  {
    if cards == [] then []
    else
      var rest := FilterCards(cards[1..], searchTerm, selectedType);
      if Matches(cards[0], searchTerm, selectedType) then [cards[0]] + rest else rest
  }

  /** The cards the page lists for a given UI state. */
  function VisibleCards(cards: seq<Card>, st: HomeState): (r: seq<Card>)
    ensures forall c :: c in r <==> c in cards && Matches(c, st.searchTerm, st.selectedType)
    ensures st == InitialState ==> r == cards
  {
    if st == InitialState then InitialStateShowsAll(cards); FilterCards(cards, "", "")
    else FilterCards(cards, st.searchTerm, st.selectedType)
  }

  /** `sub` can be obtained from `s` by deleting elements, without
      reordering those that are kept. */
  ghost predicate IsSubsequence<T>(sub: seq<T>, s: seq<T>)
    decreases |s|
  {
    if sub == [] then true
    else if s == [] then false
    else (sub[0] == s[0] && IsSubsequence(sub[1..], s[1..])) || IsSubsequence(sub, s[1..])
  }

  /** The filtered list keeps the input's relative order. */
  lemma {:induction false} FilterIsSubsequence(cards: seq<Card>, searchTerm: string, selectedType: string)
    ensures IsSubsequence(FilterCards(cards, searchTerm, selectedType), cards)
  {
    if cards != [] {
      var rest := FilterCards(cards[1..], searchTerm, selectedType);
      FilterIsSubsequence(cards[1..], searchTerm, selectedType);
      if Matches(cards[0], searchTerm, selectedType) {
        assert ([cards[0]] + rest)[1..] == rest;
      }
    }
  }

  /** Each card occurs in the result exactly as often as in the input when
      it matches, and not at all otherwise. */
  lemma {:induction false} FilterMultiplicity(cards: seq<Card>, searchTerm: string, selectedType: string, c: Card)
    ensures multiset(FilterCards(cards, searchTerm, selectedType))[c]
         == if Matches(c, searchTerm, selectedType) then multiset(cards)[c] else 0
  {
    if cards != [] {
      FilterMultiplicity(cards[1..], searchTerm, selectedType, c);
      assert cards == [cards[0]] + cards[1..];
    }
  }

  /** A subsequence holds no element more often than the sequence it was
      taken from. */
  lemma {:induction false} SubsequenceMultiset<T>(sub: seq<T>, s: seq<T>)
    requires IsSubsequence(sub, s)
    ensures multiset(sub) <= multiset(s)
    decreases |s|
  {
    if sub != [] {
      assert s == [s[0]] + s[1..];
      if sub[0] == s[0] && IsSubsequence(sub[1..], s[1..]) {
        SubsequenceMultiset(sub[1..], s[1..]);
        assert sub == [sub[0]] + sub[1..];
      } else {
        SubsequenceMultiset(sub, s[1..]);
      }
    }
  }

  /** Order preservation and the multiplicities above pin the result down:
      any order-preserving selection of the input that keeps every matching
      card as often as the input has it, and no other card, is the filtered
      list. */
  lemma {:induction false} FilterUnique(cards: seq<Card>, searchTerm: string, selectedType: string, r: seq<Card>)
    requires IsSubsequence(r, cards)
    requires forall c :: multiset(r)[c] == if Matches(c, searchTerm, selectedType) then multiset(cards)[c] else 0
    ensures r == FilterCards(cards, searchTerm, selectedType)
    decreases |cards|
  {
    if cards == [] {
      assert r == [];
    } else {
      var head, tail := cards[0], cards[1..];
      assert cards == [head] + tail;
      if r == [] {
        forall c ensures multiset(r)[c] == if Matches(c, searchTerm, selectedType) then multiset(tail)[c] else 0 {
        }
        FilterUnique(tail, searchTerm, selectedType, r);
        assert !Matches(head, searchTerm, selectedType);
      } else if r[0] == head && IsSubsequence(r[1..], tail) {
        assert r == [head] + r[1..];
        assert Matches(head, searchTerm, selectedType);
        forall c ensures multiset(r[1..])[c] == if Matches(c, searchTerm, selectedType) then multiset(tail)[c] else 0 {
        }
        FilterUnique(tail, searchTerm, selectedType, r[1..]);
      } else {
        assert IsSubsequence(r, tail);
        SubsequenceMultiset(r, tail);
        if Matches(head, searchTerm, selectedType) {
          assert false;
        }
        forall c ensures multiset(r)[c] == if Matches(c, searchTerm, selectedType) then multiset(tail)[c] else 0 {
        }
        FilterUnique(tail, searchTerm, selectedType, r);
      }
    }
  }

  /** Filtering a concatenation filters each part. */
  lemma {:induction false} FilterAppend(xs: seq<Card>, ys: seq<Card>, searchTerm: string, selectedType: string)
    ensures FilterCards(xs + ys, searchTerm, selectedType)
         == FilterCards(xs, searchTerm, selectedType) + FilterCards(ys, searchTerm, selectedType)
  {
    if xs == [] {
      assert xs + ys == ys;
    } else {
      assert (xs + ys)[0] == xs[0];
      assert (xs + ys)[1..] == xs[1..] + ys;
      FilterAppend(xs[1..], ys, searchTerm, selectedType);
    }
  }

  /** With nothing typed and "All Types" selected, every card passes, so
      the list is the input unchanged. */
  lemma {:induction false} InitialStateShowsAll(cards: seq<Card>)
    ensures FilterCards(cards, InitialState.searchTerm, InitialState.selectedType) == cards
  {
    if cards != [] {
      InitialStateShowsAll(cards[1..]);
      ContainsEmpty(ToLower(cards[0].name));
      assert [cards[0]] + cards[1..] == cards;
    }
  }

  /** Two search terms that lower-case alike select the same cards. */
  lemma {:induction false} SearchIgnoresCase(cards: seq<Card>, term1: string, term2: string, selectedType: string)
    requires ToLower(term1) == ToLower(term2)
    ensures FilterCards(cards, term1, selectedType) == FilterCards(cards, term2, selectedType)
  {
    if cards != [] {
      SearchIgnoresCase(cards[1..], term1, term2, selectedType);
    }
  }

  /** In particular, lower-casing the term first changes nothing. */
  lemma LoweredTermSameResult(cards: seq<Card>, searchTerm: string, selectedType: string)
    ensures FilterCards(cards, ToLower(searchTerm), selectedType) == FilterCards(cards, searchTerm, selectedType)
  {
    ToLowerIdempotent(searchTerm);
    SearchIgnoresCase(cards, ToLower(searchTerm), searchTerm, selectedType);
  }

  /** Filtering the filtered list again with the same state changes nothing. */
  lemma {:induction false} FilterIdempotent(cards: seq<Card>, searchTerm: string, selectedType: string)
    ensures FilterCards(FilterCards(cards, searchTerm, selectedType), searchTerm, selectedType)
         == FilterCards(cards, searchTerm, selectedType)
  {
    if cards != [] {
      var rest := FilterCards(cards[1..], searchTerm, selectedType);
      FilterIdempotent(cards[1..], searchTerm, selectedType);
      if Matches(cards[0], searchTerm, selectedType) {
        assert ([cards[0]] + rest)[0] == cards[0];
        assert ([cards[0]] + rest)[1..] == rest;
      }
    }
  }

  /** The name search ignores case but the type comparison does not: the
      term "CHAR" finds "Charmander", yet the selection "fire" drops a card
      of type "Fire". */
  lemma TypeMatchIsCaseSensitive()
    ensures var card := Card(4, "Charmander", "Fire", 39, 52, "Water", "Grass");
            FilterCards([card], "CHAR", "") == [card]
            && FilterCards([card], "CHAR", "fire") == []
            && FilterCards([card], "CHAR", "Fire") == [card]
  {
    var card := Card(4, "Charmander", "Fire", 39, 52, "Water", "Grass");
    var name, term := ToLower(card.name), ToLower("CHAR");
    assert |term| == 4 && |name| == 10;
    assert term[0] == name[0] == 'c';
    assert term[1] == name[1] == 'h';
    assert term[2] == name[2] == 'a';
    assert term[3] == name[3] == 'r';
    assert term <= name;
  }
}
