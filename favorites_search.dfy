/**
 * The favorites search box of the userscript: the text being typed, the
 * autocomplete suggestions shown under it, the highlighted suggestion and the
 * keyboard handling that moves the highlight and takes a suggestion into the text.
 */
module FavoritesSearch {
  import opened Seqs
  import opened Text

  /** One autocomplete suggestion from the server. */
  datatype Suggestion = Suggestion(name: string, kind: string, uses: int)

  /** JavaScript's `a % n` for `n > 0`: the remainder takes the sign of `a` (`-0` is `0`). */
  function JsRem(a: int, n: int): (r: int)
    requires n > 0
    ensures -n < r < n
    ensures a >= 0 ==> r == a % n
    ensures a < 0 ==> r == -((-a) % n)
  {
    if a >= 0 then a % n else -((-a) % n)
  }

  /** The highlight after moving by `delta` through `len` suggestions from `active`. */
  function NextIndex(active: int, delta: int, len: int): (r: int)
    requires len > 0
    ensures -len < r < len
    ensures active + delta + len >= 0 ==> r == (active + delta + len) % len
    ensures active + delta + len < 0 ==> r <= 0
  {
    JsRem(active + delta + len, len)
  }

  /**
   * One step up or down from a highlight in `[-1, len)` lands on a suggestion:
   * JavaScript's remainder agrees with the mathematical one here.
   */
  lemma NextIndexInRange(active: int, delta: int, len: int)
    requires len > 0 && -1 <= active < len && (delta == 1 || delta == -1)
    ensures 0 <= NextIndex(active, delta, len) < len
    ensures NextIndex(active, delta, len) == (active + delta + len) % len
  {
    var x := active + delta + len;
    if x < 0 {
      assert x == -1 && len == 1;
    }
  }

  /** Down from the last suggestion wraps to the first; up from the first wraps to the last. */
  lemma SelectionWraps(len: int)
    requires len > 0
    ensures NextIndex(len - 1, 1, len) == 0
    ensures NextIndex(0, -1, len) == len - 1
    ensures NextIndex(-1, 1, len) == 0
  {
  }

  /**
   * Up with nothing highlighted skips the last suggestion: it lands on the one
   * before it, or on the only one.
   */
  lemma UpFromNoSelection(len: int)
    requires len > 0
    ensures len >= 2 ==> NextIndex(-1, -1, len) == len - 2
    ensures len == 1 ==> NextIndex(-1, -1, len) == 0
  {
  }

  /** `getLastWord`: the trimmed text after the last space. */
  function LastWord(search: string): (r: string)
    ensures ' ' !in r
  {
    var words := Split(search, ' ');
    var r := Trim(Js, words[|words| - 1]);
    assert forall x :: x in r ==> x in words[|words| - 1];
    r
  }

  /** The last word of a text ending in `" " + w`, where `w` has no space, is `w` trimmed. */
  lemma LastWordAfterSpace(prefix: string, w: string)
    requires ' ' !in w
    ensures LastWord(prefix + " " + w) == Trim(Js, w)
  {
    SplitAround(prefix, ' ', w);
    assert prefix + " " + w == prefix + [' '] + w;
    SplitNoSeparator(w, ' ');
  }

  /**
   * `replaceTerm`'s new text: the last space-separated segment becomes `newTerm`,
   * then a space; everything up to and including the last space is kept.
   */
  function ReplacedSearch(search: string, newTerm: string): (r: string)
    ensures var terms := Split(search, ' ');
      |terms[|terms| - 1]| <= |search| && r == search[..|search| - |terms[|terms| - 1]|] + newTerm + " "
  {
    var terms := Split(search, ' ');
    var init, last := terms[..|terms| - 1], terms[|terms| - 1];
    assert search[..|search| - |last|] + newTerm == Join(init + [newTerm], ' ') by {
      JoinSplit(search, ' ');
      assert terms == init + [last];
      if init != [] {
        JoinSnoc(init, last, ' ');
        JoinSnoc(init, newTerm, ' ');
        assert search == Join(init, ' ') + [' '] + last;
        assert search[..|search| - |last|] == Join(init, ' ') + [' '];
      } else {
        assert search == last;
      }
    }
    Join(init + [newTerm], ' ') + " "
  }

  /**
   * Splitting the new text gives the earlier segments unchanged, then the new
   * term, then the empty segment after the trailing space.
   */
  lemma ReplacedSearchSegments(search: string, newTerm: string)
    requires ' ' !in newTerm
    ensures var terms := Split(search, ' ');
            Split(ReplacedSearch(search, newTerm), ' ') == terms[..|terms| - 1] + [newTerm, ""]
  {
    var terms := Split(search, ' ');
    var xs := terms[..|terms| - 1] + [newTerm];
    JoinSnoc(xs, "", ' ');
    assert Join(xs, ' ') + " " == Join(xs + [""], ' ');
    assert xs + [""] == terms[..|terms| - 1] + [newTerm, ""];
    forall i | 0 <= i < |xs + [""]| ensures ' ' !in (xs + [""])[i] {
      if i < |terms| - 1 {
        assert (xs + [""])[i] == terms[i];
      }
    }
    SplitJoin(xs + [""], ' ');
  }

  /** After a replacement the last word is empty, which is what the follow-up fetch asks for. */
  lemma LastWordAfterReplace(search: string, newTerm: string)
    ensures LastWord(ReplacedSearch(search, newTerm)) == ""
  {
    var terms := Split(search, ' ');
    var j := Join(terms[..|terms| - 1] + [newTerm], ' ');
    assert ReplacedSearch(search, newTerm) == j + " " + "";
    LastWordAfterSpace(j, "");
  }

  /** `addToHistory`'s list: the term first, then the other entries without any copy of it. */
  function WithTermFirst(history: seq<string>, term: string): (r: seq<string>)
    ensures |r| >= 1 && r[0] == term && term !in r[1..]
    ensures forall x :: x != term ==> (x in r <==> x in history)
    ensures |r| <= |history| + 1
  {
    [term] + Filter(history, Unequal(term))
  }

  /** A term not yet in the history is put in front of it. */
  lemma NewTermPrepended(history: seq<string>, term: string)
    requires term !in history
    ensures WithTermFirst(history, term) == [term] + history
  {
    FilterKeepsAll(history, Unequal(term));
  }

  /** The other entries keep their order: the filter distributes over any split of the history. */
  lemma WithTermFirstKeepsOrder(a: seq<string>, b: seq<string>, term: string)
    ensures WithTermFirst(a + b, term) == WithTermFirst(a, term) + Filter(b, Unequal(term))
  {
    FilterAppend(a, b, Unequal(term));
  }

  /** Adding the same term twice is adding it once. */
  lemma WithTermFirstIdempotent(history: seq<string>, term: string)
    ensures WithTermFirst(WithTermFirst(history, term), term) == WithTermFirst(history, term)
  {
    var keep := Unequal(term);
    var f := Filter(history, keep);
    var w := [term] + f;
    assert w == WithTermFirst(history, term);
    FilterAppend([term], f, keep);
    assert Filter([term], keep) == [] by {
      assert [term][..0] == [];
    }
    assert forall x :: x in f ==> keep(x);
    FilterKeepsAll(f, keep);
    assert Filter(w, keep) == f;
  }

  /** The search history kept in local storage under `arue-history`. */
  class HistoryStorage {
    var items: seq<string>

    constructor (initial: seq<string>)
      ensures items == initial
    {
      items := initial;
    }

    /** `addToHistory(term)`. */
    method AddToHistory(term: string)
      modifies this
      ensures items == WithTermFirst(old(items), term)
    {
      items := [term] + Filter(items, Unequal(term));
    }
  }

  /** The state of one favorites search box. */
  class Form {
    var search: string
    var suggestions: seq<Suggestion>
    /** -1 means no suggestion is highlighted. */
    var activeIndex: int
    var inputActive: bool

    ghost predicate Valid()
      reads this
    {
      -1 <= activeIndex < |suggestions|
    }

    /** A new box starts with the latest history entry, no suggestions and nothing highlighted. */
    constructor (history: seq<string>)
      ensures Valid()
      ensures search == (if history == [] then "" else history[0])
      ensures suggestions == [] && activeIndex == -1 && !inputActive
    {
      search := if history == [] then "" else history[0];
      suggestions := [];
      activeIndex := -1;
      inputActive := false;
    }

    /** A suggestion fetch completing: the list is replaced and the highlight cleared. */
    method ReceiveSuggestions(fetched: seq<Suggestion>)
      modifies this
      ensures Valid()
      ensures suggestions == fetched && activeIndex == -1
      ensures search == old(search) && inputActive == old(inputActive)
    {
      suggestions := fetched;
      activeIndex := -1;
    }

    /** `oninput`: the text is taken and the box becomes active (the debounced fetch is separate). */
    method Input(text: string)
      modifies this
      ensures search == text && inputActive
      ensures suggestions == old(suggestions) && activeIndex == old(activeIndex)
    {
      inputActive := true;
      search := text;
    }

    /** `moveSelection(delta)`: nothing happens without suggestions. */
    method MoveSelection(delta: int)
      requires Valid() && (delta == 1 || delta == -1)
      modifies this
      ensures Valid()
      ensures old(suggestions) == [] ==>
                activeIndex == old(activeIndex) && inputActive == old(inputActive)
      ensures old(suggestions) != [] ==>
                activeIndex == NextIndex(old(activeIndex), delta, |old(suggestions)|) && inputActive
      ensures 0 <= activeIndex || old(suggestions) == []
      ensures search == old(search) && suggestions == old(suggestions)
    {
      var len := |suggestions|;
      if len == 0 {
        return;
      }
      NextIndexInRange(activeIndex, delta, len);
      activeIndex := JsRem(activeIndex + delta + len, len);
      inputActive := true;
    }

    /**
     * `replaceTerm(newTerm)`: the last segment of the text becomes the term, and
     * the suggestions for the empty word, `fetched`, replace the list.
     */
    method ReplaceTerm(newTerm: string, fetched: seq<Suggestion>)
      modifies this
      ensures Valid()
      ensures search == ReplacedSearch(old(search), newTerm)
      ensures suggestions == fetched && activeIndex == -1 && inputActive == old(inputActive)
    {
      var terms := Split(search, ' ');
      terms := terms[..|terms| - 1];
      terms := terms + [newTerm];
      search := Join(terms, ' ') + " ";
      suggestions := fetched;
      activeIndex := -1;
    }

    /**
     * `onkeydown`: Escape closes the list; with suggestions, the arrows move the
     * highlight and Enter or Tab take the highlighted one. `fetched` is what the
     * follow-up fetch of a replacement returns.
     */
    method OnKeyDown(key: string, fetched: seq<Suggestion>)
      requires Valid()
      modifies this
      ensures Valid()
      ensures key == "Escape" ==>
                !inputActive && activeIndex == -1
                && search == old(search) && suggestions == old(suggestions)
      ensures key != "Escape" && old(suggestions) == [] ==>
                search == old(search) && suggestions == old(suggestions)
                && activeIndex == old(activeIndex) && inputActive == old(inputActive)
      ensures key == "ArrowDown" && old(suggestions) != [] ==>
                activeIndex == NextIndex(old(activeIndex), 1, |old(suggestions)|) && inputActive
                && search == old(search) && suggestions == old(suggestions)
      ensures key == "ArrowUp" && old(suggestions) != [] ==>
                activeIndex == NextIndex(old(activeIndex), -1, |old(suggestions)|) && inputActive
                && search == old(search) && suggestions == old(suggestions)
      ensures (key == "Enter" || key == "Tab") && old(suggestions) != [] && old(activeIndex) >= 0 ==>
                search == ReplacedSearch(old(search), old(suggestions)[old(activeIndex)].name)
                && suggestions == fetched && activeIndex == -1 && inputActive == old(inputActive)
      ensures (key == "Enter" || key == "Tab") && old(activeIndex) < 0 ==>
                search == old(search) && suggestions == old(suggestions)
                && activeIndex == old(activeIndex) && inputActive == old(inputActive)
      ensures key !in {"Escape", "ArrowDown", "ArrowUp", "Enter", "Tab"} ==>
                search == old(search) && suggestions == old(suggestions)
                && activeIndex == old(activeIndex) && inputActive == old(inputActive)
    {
      if key == "Escape" {
        inputActive := false;
        activeIndex := -1;
        return;
      }
      if |suggestions| == 0 {
        return;
      }
      if key == "ArrowDown" {
        MoveSelection(1);
      } else if key == "ArrowUp" {
        MoveSelection(-1);
      } else if key == "Enter" || key == "Tab" {
        if activeIndex >= 0 {
          var s := suggestions[activeIndex];
          ReplaceTerm(s.name, fetched);
        }
      }
    }

    /**
     * `onsubmit`: the trimmed text is searched; once `searchFavorites` resolves,
     * the term is recorded in the history and the list closes. When the search
     * request rejects (`searched` false), the handler stops at its `await` and
     * nothing changes. The request itself and the result dialog are not modelled.
     */
    method Submit(history: HistoryStorage, searched: bool)
      requires Valid()
      modifies this, history
      ensures Valid()
      ensures searched ==> history.items == WithTermFirst(old(history.items), Trim(Js, old(search)))
                           && !inputActive && activeIndex == -1
      ensures !searched ==> history.items == old(history.items)
                            && inputActive == old(inputActive) && activeIndex == old(activeIndex)
      ensures search == old(search) && suggestions == old(suggestions)
    {
      var term := Trim(Js, search);
      if !searched {
        return;
      }
      history.AddToHistory(term);
      inputActive := false;
      activeIndex := -1;
    }
  }
}
