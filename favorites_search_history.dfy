/**
 * The history dialog of the favorites search: the searches that found
 * something, newest first, each with the number of results it found.
 */
module FavoritesSearchHistory {
  import opened Seqs
  import opened Text

  datatype Entry = Entry(term: string, results: int)

  /** The filter `item => item.term !== term`. */
  function TermIsNot(term: string): Entry -> bool {
    (e: Entry) => e.term != term
  }

  /** The entries whose term is not `term`, in their order. */
  function WithoutTerm(history: seq<Entry>, term: string): (r: seq<Entry>)
    ensures |r| <= |history|
    ensures forall e :: e in r <==> e in history && e.term != term
  {
    Filter(history, TermIsNot(term))
  }

  /** `addToHistory(entry)`'s new list: unchanged for a search without results. */
  function Added(history: seq<Entry>, entry: Entry): (r: seq<Entry>)
    ensures entry.results == 0 ==> r == history
    ensures entry.results != 0 ==>
              |r| >= 1 && r[0] == entry
              && (forall i :: 1 <= i < |r| ==> r[i].term != entry.term)
              && (forall e: Entry :: e.term != entry.term ==> (e in r <==> e in history))
    ensures |r| <= |history| + 1
  {
    if entry.results == 0 then history
    else
      var rest := WithoutTerm(history, entry.term);
      assert forall i :: 0 <= i < |rest| ==> rest[i] in rest;
      [entry] + rest
  }

  /** The entries other than the new one keep their order: past the head, adding is a filter. */
  lemma AddedKeepsOrder(a: seq<Entry>, b: seq<Entry>, entry: Entry)
    requires entry.results != 0
    ensures Added(a + b, entry) == [entry] + WithoutTerm(a, entry.term) + WithoutTerm(b, entry.term)
  {
    var wa, wb := WithoutTerm(a, entry.term), WithoutTerm(b, entry.term);
    assert Added(a + b, entry) == [entry] + WithoutTerm(a + b, entry.term);
    FilterAppend(a, b, TermIsNot(entry.term));
    AppendAssoc([entry], wa, wb);
  }

  /** A search for a new term is put in front of the history. */
  lemma AddedNewTerm(history: seq<Entry>, entry: Entry)
    requires entry.results != 0
    requires forall e :: e in history ==> e.term != entry.term
    ensures Added(history, entry) == [entry] + history
  {
    FilterKeepsAll(history, TermIsNot(entry.term));
  }

  /** Removing a term then adding it again is adding it. */
  lemma AddedAfterRemoving(history: seq<Entry>, entry: Entry)
    requires entry.results != 0
    ensures Added(WithoutTerm(history, entry.term), entry) == Added(history, entry)
  {
    FilterKeepsAll(WithoutTerm(history, entry.term), TermIsNot(entry.term));
  }

  /** Removing a term twice is removing it once. */
  lemma RemovedIdempotent(history: seq<Entry>, term: string)
    ensures WithoutTerm(WithoutTerm(history, term), term) == WithoutTerm(history, term)
  {
    FilterKeepsAll(WithoutTerm(history, term), TermIsNot(term));
  }

  /** The history held by the dialog (and written to local storage under `arue-history`). */
  class History {
    var entries: seq<Entry>

    constructor (loaded: seq<Entry>)
      ensures entries == loaded
    {
      entries := loaded;
    }

    /** `addToHistory(entry)`. */
    method AddToHistory(entry: Entry)
      modifies this
      ensures entries == Added(old(entries), entry)
    {
      if entry.results == 0 {
        return;
      }
      entries := [entry] + Filter(entries, TermIsNot(entry.term));
    }

    /** `removeFromHistory(term)`. */
    method RemoveFromHistory(term: string)
      modifies this
      ensures entries == WithoutTerm(old(entries), term)
    {
      entries := Filter(entries, TermIsNot(term));
    }
  }

  /** The words of a split after trimming, as `.map(term => term.trim())` gives them. */
  function TrimAll(words: seq<string>): (r: seq<string>)
    ensures |r| == |words| && forall i :: 0 <= i < |r| ==> r[i] == Trim(Js, words[i])
  {
    if words == [] then [] else [Trim(Js, words[0])] + TrimAll(words[1..])
  }

  /** The filter `term => term`: a string is truthy when it is not empty. */
  function NonEmpty(): string -> bool {
    w => w != ""
  }

  /** `cleanTerm(term)`: the words of the term, trimmed and without empty ones, joined by single spaces. */
  function CleanWords(term: string): (r: seq<string>)
    ensures forall i :: 0 <= i < |r| ==> r[i] != "" && Trim(Js, r[i]) == r[i] && ' ' !in r[i]
  {
    var words := TrimAll(Split(term, ' '));
    var r := Filter(words, NonEmpty());
    assert forall i :: 0 <= i < |r| ==> r[i] in words by {
      forall i | 0 <= i < |r| ensures r[i] in words {
        assert r[i] in r;
      }
    }
    assert forall i :: 0 <= i < |r| ==> r[i] != "" && Trim(Js, r[i]) == r[i] && ' ' !in r[i] by {
      forall i | 0 <= i < |r| ensures r[i] != "" && Trim(Js, r[i]) == r[i] && ' ' !in r[i] {
        assert r[i] in r;
        var k :| 0 <= k < |words| && words[k] == r[i];
        TrimIdempotent(Js, Split(term, ' ')[k]);
        TrimKeepsOnly(Js, Split(term, ' ')[k]);
      }
    }
    r
  }

  /** The cleaned term: splitting it gives back its words, none of them empty or padded. */
  function CleanTerm(term: string): (r: string)
    ensures CleanWords(term) != [] ==> Split(r, ' ') == CleanWords(term)
    ensures CleanWords(term) == [] ==> r == ""
  {
    var w := CleanWords(term);
    if w != [] then SplitJoin(w, ' '); Join(w, ' ') else Join(w, ' ')
  }

  /** An empty term has no words. */
  lemma CleanWordsOfEmpty()
    ensures CleanWords("") == []
  {
    assert Split("", ' ') == [""];
    assert TrimAll([""]) == [Trim(Js, "")];
    assert Trim(Js, "") == "";
    assert Filter([""], NonEmpty()) == [] by {
      assert [""][..0] == [];
    }
  }

  /** Trimming words that are already trimmed keeps them. */
  lemma {:induction false} TrimAllOfTrimmed(w: seq<string>)
    requires forall i :: 0 <= i < |w| ==> Trim(Js, w[i]) == w[i]
    ensures TrimAll(w) == w
    decreases |w|
  {
    if w != [] {
      TrimAllOfTrimmed(w[1..]);
    }
  }

  /** Words that are non-empty, trimmed and without spaces are what cleaning their join gives back. */
  lemma CleanWordsOfJoined(w: seq<string>)
    requires w != []
    requires forall i :: 0 <= i < |w| ==> w[i] != "" && Trim(Js, w[i]) == w[i] && ' ' !in w[i]
    ensures CleanWords(Join(w, ' ')) == w
  {
    SplitJoin(w, ' ');
    TrimAllOfTrimmed(w);
    FilterKeepsAll(w, NonEmpty());
  }

  /** Cleaning a cleaned term changes nothing. */
  lemma CleanTermIdempotent(term: string)
    ensures CleanTerm(CleanTerm(term)) == CleanTerm(term)
  {
    var w := CleanWords(term);
    if w == [] {
      assert CleanTerm(term) == "";
      CleanWordsOfEmpty();
    } else {
      CleanWordsOfJoined(w);
    }
  }
}
