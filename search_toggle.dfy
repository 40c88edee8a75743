/**
 * The search-form buttons of the userscript. Pressing a button toggles its
 * search term in the page's `tags` input. A term with a `special:` prefix
 * replaces every term carrying that prefix. Any other term is toggled like a
 * member of a set.
 */
module SearchToggle {
  import opened Seqs
  import opened Text

  /** The three button values, in the order the form shows them. */
  const Buttons: seq<string> := ["sort:score", "score:>50", "score:>150"]

  /** `s.indexOf(c)`: the first position of `c` in `s`, or -1. */
  function IndexOf(s: string, c: char): (i: int)
    ensures -1 <= i < |s|
    ensures i == -1 <==> c !in s
    ensures i >= 0 ==> s[i] == c && c !in s[..i]
  {
    if s == [] then -1
    else if s[0] == c then 0
    else
      var k := IndexOf(s[1..], c);
      assert k >= 0 ==> s[..k + 1] == [s[0]] + s[1..][..k];
      if k == -1 then -1 else k + 1
  }

  /**
   * `value.substring(0, value.indexOf(":"))`: the text before the first colon.
   * An end of -1 is raised to 0, so a value without a colon has no prefix.
   */
  function Special(value: string): (p: string)
    ensures p == "" <==> ':' !in value || value[0] == ':'
    ensures p != "" ==> ':' !in p && StartsWith(value, p + ":")
  {
    var i := IndexOf(value, ':');
    if i <= 0 then "" else value[..i]
  }

  /** The filter `v => !v.startsWith(special)`. */
  function NotPrefixed(special: string): string -> bool {
    v => !StartsWith(v, special)
  }

  /** The search terms after pressing the button for `value` on the terms `values`. */
  function Toggle(values: seq<string>, value: string): (r: seq<string>)
    ensures Special(value) != "" ==>
              |r| >= 1 && r[|r| - 1] == value
              && (forall i :: 0 <= i < |r| - 1 ==> !StartsWith(r[i], Special(value)))
              && (forall v :: v in values && !StartsWith(v, Special(value)) ==> v in r)
              && (forall v :: v in r ==> v in values || v == value)
    ensures Special(value) != "" ==> r[..|r| - 1] == Filter(values, NotPrefixed(Special(value)))
    ensures Special(value) == "" ==>
              r == if value in Dedup(values) then Filter(Dedup(values), Unequal(value))
                   else Dedup(values) + [value]
    ensures Special(value) == "" ==>
              NoDuplicates(r)
              && (value in r <==> value !in values)
              && (forall v :: v != value ==> (v in r <==> v in values))
  {
    var special := Special(value);
    if special != "" then
      var f := Filter(values, NotPrefixed(special));
      SpecialToggle(values, value, special, f);
      f + [value]
    else
      WordToggle(values, value);
      var d := Dedup(values);
      if value in d then Filter(d, Unequal(value)) else d + [value]
  }

  /** A special value replaces every value with its prefix and goes last. */
  lemma SpecialToggle(values: seq<string>, value: string, special: string, f: seq<string>)
    requires f == Filter(values, NotPrefixed(special))
    ensures forall i :: 0 <= i < |f| ==> !StartsWith(f[i], special)
    ensures forall v :: v in values && !StartsWith(v, special) ==> v in f + [value]
    ensures forall v :: v in f + [value] ==> v in values || v == value
  {
    forall i | 0 <= i < |f| ensures !StartsWith(f[i], special) {
      assert f[i] in f;
    }
  }

  /** A plain word is removed when present and appended when absent, on the deduplicated values. */
  lemma WordToggle(values: seq<string>, value: string)
    ensures var d := Dedup(values);
      var r := if value in d then Filter(d, Unequal(value)) else d + [value];
      && NoDuplicates(r)
      && (value in r <==> value !in values)
      && (forall v :: v != value ==> (v in r <==> v in values))
  {
    var d := Dedup(values);
    assert forall v :: v in d <==> v in ToSet(values);
    if value in d {
      FilterNoDuplicates(d, Unequal(value));
    } else {
      assert NoDuplicates(d + [value]) by {
        assert forall i :: 0 <= i < |d| ==> d[i] != value;
      }
    }
  }

  /** The new text of the input: splitting it at spaces gives back the toggled terms. */
  function Toggled(s: string, value: string): (r: string)
    ensures ' ' !in value && Toggle(Split(s, ' '), value) != [] ==> Split(r, ' ') == Toggle(Split(s, ' '), value)
    ensures Toggle(Split(s, ' '), value) == [] ==> r == ""
  {
    var t := Toggle(Split(s, ' '), value);
    assert ' ' !in value && t != [] ==> Split(Join(t, ' '), ' ') == t by {
      if ' ' !in value && t != [] {
        TogglePiecesHaveNoSpace(Split(s, ' '), value);
        SplitJoin(t, ' ');
      }
    }
    Join(t, ' ')
  }

  /** The `tags` input element of the search form. */
  class TextInput {
    var value: string

    constructor (initial: string)
      ensures value == initial
    {
      value := initial;
    }
  }

  /** A JavaScript `Set` of strings: its elements in insertion order. */
  class StringSet {
    var elements: seq<string>

    /** `new Set(values)`: adds the values one by one. */
    constructor FromValues(values: seq<string>)
      ensures elements == Dedup(values)
    {
      var acc: seq<string> := [];
      var i := 0;
      while i < |values|
        invariant 0 <= i <= |values|
        invariant acc == Dedup(values[..i])
      {
        assert values[..i + 1][..i] == values[..i];
        assert ToSet(acc) == ToSet(values[..i]);
        acc := if values[i] in acc then acc else acc + [values[i]];
        i := i + 1;
      }
      assert values[..i] == values;
      elements := acc;
    }

    /** `set.delete(x)`: removes `x` and reports whether it was there. */
    method Delete(x: string) returns (found: bool)
      modifies this
      ensures found <==> x in old(elements)
      ensures elements == Filter(old(elements), Unequal(x))
    {
      found := x in elements;
      elements := Filter(elements, Unequal(x));
    }

    /** `set.add(x)`: appends `x` unless it is already there. */
    method Add(x: string)
      modifies this
      ensures elements == if x in old(elements) then old(elements) else old(elements) + [x]
    {
      if x !in elements {
        elements := elements + [x];
      }
    }
  }

  /** `toggleValue(value)`: a missing input element leaves everything unchanged. */
  method ToggleValue(input: TextInput?, value: string)
    modifies input
    ensures input != null ==> input.value == Toggled(old(input.value), value)
  {
    if input == null {
      return;
    }
    var values := Split(input.value, ' ');
    var special := Special(value);
    if special != "" {
      values := Filter(values, NotPrefixed(special));
      values := values + [value];
    } else {
      ghost var d := Dedup(values);
      var valueSet := new StringSet.FromValues(values);
      var deleted := valueSet.Delete(value);
      if !deleted {
        valueSet.Add(value);
        assert valueSet.elements == Filter(d, Unequal(value)) + [value];
        FilterKeepsAll(d, Unequal(value));
      }
      values := valueSet.elements;
      assert values == Toggle(Split(old(input.value), ' '), value);
    }
    input.value := Join(values, ' ');
  }

  /** `indexOf` finds the first occurrence. */
  lemma FirstIndex(s: string, c: char, i: nat)
    requires i < |s| && s[i] == c && c !in s[..i]
    ensures IndexOf(s, c) == i
  {
    assert s[i] in s;
    var k := IndexOf(s, c);
    assert forall j :: 0 <= j < i ==> s[j] != c by {
      forall j | 0 <= j < i ensures s[j] != c {
        assert s[..i][j] == s[j];
      }
    }
    assert forall j :: 0 <= j < k ==> s[j] != c by {
      forall j | 0 <= j < k ensures s[j] != c {
        assert s[..k][j] == s[j];
      }
    }
  }

  /** The prefix of `p:rest` is `p`, for a non-empty `p` without a colon. */
  lemma PrefixOf(p: string, rest: string)
    requires p != "" && ':' !in p
    ensures Special(p + ":" + rest) == p
  {
    var s := p + ":" + rest;
    assert s[..|p|] == p;
    FirstIndex(s, ':', |p|);
  }

  /** The prefixes of the three buttons: `sort` and, for both score buttons, `score`. */
  lemma ButtonPrefixes()
    ensures Special(Buttons[0]) == "sort"
    ensures Special(Buttons[1]) == "score" && Special(Buttons[2]) == "score"
  {
    var b0, b1, b2 := Buttons[0], Buttons[1], Buttons[2];
    assert b0 == "sort" + ":" + "score";
    assert b1 == "score" + ":" + ">50";
    assert b2 == "score" + ":" + ">150";
    PrefixOf("sort", "score");
    PrefixOf("score", ">50");
    PrefixOf("score", ">150");
  }

  /** A term without a colon, or with its colon first, has no prefix. */
  lemma NoPrefixWithoutLeadingText(value: string)
    ensures ':' !in value ==> Special(value) == ""
    ensures value != [] && value[0] == ':' ==> Special(value) == ""
  {
  }

  /** Every piece of a split or of a toggle of split pieces is free of spaces, given a space-free value. */
  lemma TogglePiecesHaveNoSpace(values: seq<string>, value: string)
    requires forall i :: 0 <= i < |values| ==> ' ' !in values[i]
    requires ' ' !in value
    ensures forall i :: 0 <= i < |Toggle(values, value)| ==> ' ' !in Toggle(values, value)[i]
  {
    var r := Toggle(values, value);
    forall i | 0 <= i < |r| ensures ' ' !in r[i] {
      assert r[i] in r;
      if r[i] != value {
        assert r[i] in values;
        var k :| 0 <= k < |values| && values[k] == r[i];
      }
    }
  }

  /** With a prefix, toggling the already toggled terms changes nothing. */
  lemma ToggleSpecialIdempotent(values: seq<string>, value: string)
    requires Special(value) != ""
    ensures Toggle(Toggle(values, value), value) == Toggle(values, value)
  {
    var p := Special(value);
    var f := Filter(values, NotPrefixed(p));
    assert StartsWith(value, p) by { assert value[..|p|] == (p + ":")[..|p|]; }
    FilterAppend(f, [value], NotPrefixed(p));
    assert Filter([value], NotPrefixed(p)) == [] by {
      assert [value][..0] == [];
    }
    FilterKeepsAll(f, NotPrefixed(p));
    assert Toggle(values, value) == f + [value];
  }

  /**
   * Pressing a prefixed button twice on the input text is pressing it once:
   * it never switches itself off.
   */
  lemma ToggledSpecialIdempotent(s: string, value: string)
    requires Special(value) != "" && ' ' !in value
    ensures Toggled(Toggled(s, value), value) == Toggled(s, value)
  {
    var t := Toggle(Split(s, ' '), value);
    TogglePiecesHaveNoSpace(Split(s, ' '), value);
    SplitJoin(t, ' ');
    ToggleSpecialIdempotent(Split(s, ' '), value);
  }

  /** The non-empty terms of a joined text are the non-empty pieces that were joined. */
  lemma SplitJoinTerms(t: seq<string>)
    requires forall i :: 0 <= i < |t| ==> ' ' !in t[i]
    ensures ToSet(Split(Join(t, ' '), ' ')) - {""} == ToSet(t) - {""}
  {
    if t == [] {
      assert Split("", ' ') == [""];
    } else {
      SplitJoin(t, ' ');
    }
  }

  /**
   * Without a prefix, pressing the button twice gives back the terms the input
   * held, as a set of non-empty terms (duplicates and their order are not restored).
   */
  lemma ToggledSetTwice(s: string, value: string)
    requires Special(value) == "" && ' ' !in value && value != ""
    ensures ToSet(Split(Toggled(Toggled(s, value), value), ' ')) - {""}
            == ToSet(Split(s, ' ')) - {""}
  {
    var a := Split(s, ' ');
    var t1 := Toggle(a, value);
    TogglePiecesHaveNoSpace(a, value);
    SplitJoinTerms(t1);
    var b := Split(Join(t1, ' '), ' ');
    var t2 := Toggle(b, value);
    TogglePiecesHaveNoSpace(b, value);
    SplitJoinTerms(t2);
    WordToggledTwice(a, t1, b, t2, value);
  }

  /** Toggling a word on terms that hold, apart from empty ones, what one toggle gave restores the first terms. */
  lemma WordToggledTwice(a: seq<string>, t1: seq<string>, b: seq<string>, t2: seq<string>, value: string)
    requires Special(value) == "" && value != ""
    requires t1 == Toggle(a, value) && t2 == Toggle(b, value)
    requires ToSet(b) - {""} == ToSet(t1) - {""}
    ensures ToSet(t2) - {""} == ToSet(a) - {""}
  {
    assert value in b <==> value in t1 by {
      assert value in ToSet(b) - {""} <==> value in ToSet(t1) - {""};
    }
    forall x ensures x in ToSet(t2) - {""} <==> x in ToSet(a) - {""} {
      if x != value && x != "" {
        assert x in ToSet(b) - {""} <==> x in ToSet(t1) - {""};
      }
    }
  }

  /** Pressing one score button removes the other score term; the sort term stays. */
  lemma ScoreButtonsExclusive(values: seq<string>)
    ensures Buttons[2] in Toggle(values, Buttons[2]) && Buttons[1] !in Toggle(values, Buttons[2])
    ensures Buttons[1] in Toggle(values, Buttons[1]) && Buttons[2] !in Toggle(values, Buttons[1])
    ensures Buttons[0] in values ==>
              Buttons[0] in Toggle(values, Buttons[1]) && Buttons[0] in Toggle(values, Buttons[2])
  {
    ButtonPrefixes();
    var b0, b1, b2 := Buttons[0], Buttons[1], Buttons[2];
    assert |b1| == 9 && |b2| == 10;
    assert StartsWith(b1, "score") by { assert b1[..5] == ("score" + ":")[..5]; }
    assert StartsWith(b2, "score") by { assert b2[..5] == ("score" + ":")[..5]; }
    assert StartsWith(b0, "sort" + ":");
    assert b0[4] == ':';
    assert !StartsWith(b0, "score") by { assert "score"[4] == 'e'; }
    ReplacesPrefixed(values, b1, b2);
    ReplacesPrefixed(values, b2, b1);
  }

  /** A prefixed toggle leaves no other term with the prefix. */
  lemma ReplacesPrefixed(values: seq<string>, value: string, other: string)
    requires Special(value) != "" && StartsWith(other, Special(value)) && other != value
    ensures other !in Toggle(values, value)
  {
    var r := Toggle(values, value);
    forall i | 0 <= i < |r| ensures r[i] != other {
      if i < |r| - 1 {
        assert !StartsWith(r[i], Special(value));
      }
    }
  }
}
