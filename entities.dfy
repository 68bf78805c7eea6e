/** The five-entry HTML entity table of replaceText, the inverted table built
    from it, and the single-pass escape and unescape that use both. */
module Entities {

  datatype Option<T> = None | Some(value: T)

  /** One key/value pair of an object literal: a raw character and its entity. */
  type Entry = (char, string)

  /** `entity_map.escape`, its pairs in the order the object enumerates them. */
  const EscapeEntries: seq<Entry> :=
    [('>', "&gt;"), ('<', "&lt;"), ('"', "&quot;"), ('\'', "&#x27;"), ('&', "&amp;")]

  /** The characters the escape character class matches. */
  const RawChars: set<char> := {'>', '<', '"', '\'', '&'}

  /** An object built from pairs, a later pair overwriting an earlier one with the same key. */
  function TableOf(entries: seq<Entry>): map<char, string>
  {
    if entries == [] then map[]
    else TableOf(entries[..|entries| - 1])[entries[|entries| - 1].0 := entries[|entries| - 1].1]
  }

  /** The inverted object: each value maps back to its key, a later pair overwriting an earlier one. */
  function Inverted(entries: seq<Entry>): map<string, char>
  {
    if entries == [] then map[]
    else Inverted(entries[..|entries| - 1])[entries[|entries| - 1].1 := entries[|entries| - 1].0]
  }

  /** The keys of the pairs, in order (`unescapedChars`). */
  function KeysOf(entries: seq<Entry>): (r: seq<char>)
    ensures |r| == |entries|
  {
    seq(|entries|, i requires 0 <= i < |entries| => entries[i].0)
  }

  /** The values of the pairs, in order (`escapedChars`). */
  function ValuesOf(entries: seq<Entry>): (r: seq<string>)
    ensures |r| == |entries|
  {
    seq(|entries|, i requires 0 <= i < |entries| => entries[i].1)
  }

  ghost predicate DistinctKeys(entries: seq<Entry>)
  {
    forall i, j :: 0 <= i < j < |entries| ==> entries[i].0 != entries[j].0
  }

  ghost predicate DistinctValues(entries: seq<Entry>)
  {
    forall i, j :: 0 <= i < j < |entries| ==> entries[i].1 != entries[j].1
  }

  /** The setup loop: walks the pairs of the escape object once, filling the
      inverted object and the two lists the regular expressions are made of. */
  method BuildTables(entries: seq<Entry>)
    returns (unescape: map<string, char>, unescapedChars: seq<char>, escapedChars: seq<string>)
    ensures unescape == Inverted(entries)
    ensures unescapedChars == KeysOf(entries) && escapedChars == ValuesOf(entries)
  {
    unescape, unescapedChars, escapedChars := map[], [], [];
    for k := 0 to |entries|
      invariant unescape == Inverted(entries[..k])
      invariant unescapedChars == KeysOf(entries[..k])
      invariant escapedChars == ValuesOf(entries[..k])
    {
      var (key, entity) := entries[k];
      unescape := unescape[entity := key];
      unescapedChars := unescapedChars + [key];
      escapedChars := escapedChars + [entity];
      assert entries[..k + 1][..k] == entries[..k];
    }
    assert entries[..|entries|] == entries;
  }

  /** The keys of the pairs form the key set of the object built from them. */
  lemma {:induction false} TableOfKeys(entries: seq<Entry>)
    ensures TableOf(entries).Keys == set i | 0 <= i < |entries| :: entries[i].0
  {
    if entries != [] {
      var n := |entries| - 1;
      var init := entries[..n];
      TableOfKeys(init);
      forall i | 0 <= i < n ensures entries[i].0 == init[i].0 {
        assert init[i] == entries[i];
      }
      assert (set i | 0 <= i < |entries| :: entries[i].0) == (set i | 0 <= i < |init| :: init[i].0) + {entries[n].0};
    }
  }

  /** The values of the pairs form the key set of the inverted object. */
  lemma {:induction false} InvertedKeys(entries: seq<Entry>)
    ensures Inverted(entries).Keys == set i | 0 <= i < |entries| :: entries[i].1
  {
    if entries != [] {
      var n := |entries| - 1;
      var init := entries[..n];
      InvertedKeys(init);
      forall i | 0 <= i < n ensures entries[i].1 == init[i].1 {
        assert init[i] == entries[i];
      }
      assert (set i | 0 <= i < |entries| :: entries[i].1) == (set i | 0 <= i < |init| :: init[i].1) + {entries[n].1};
    }
  }

  /** With distinct keys and distinct values, each pair is found in both
      directions: the two objects are exact inverses. */
  lemma {:induction false} InvertedIsInverse(entries: seq<Entry>)
    requires DistinctKeys(entries) && DistinctValues(entries)
    ensures forall i :: 0 <= i < |entries| ==>
      entries[i].0 in TableOf(entries) && TableOf(entries)[entries[i].0] == entries[i].1
    ensures forall i :: 0 <= i < |entries| ==>
      entries[i].1 in Inverted(entries) && Inverted(entries)[entries[i].1] == entries[i].0
  {
    if entries != [] {
      var n := |entries| - 1;
      var init := entries[..n];
      forall i, j | 0 <= i < j < |init| ensures init[i].0 != init[j].0 && init[i].1 != init[j].1 {
        assert init[i] == entries[i] && init[j] == entries[j];
      }
      InvertedIsInverse(init);
      forall i | 0 <= i < n
        ensures entries[i].0 in TableOf(entries) && TableOf(entries)[entries[i].0] == entries[i].1
        ensures entries[i].1 in Inverted(entries) && Inverted(entries)[entries[i].1] == entries[i].0
      {
        assert init[i] == entries[i];
      }
    }
  }

  /** `entity_map.escape` as an object. */
  const EscapeTable: map<char, string> := TableOf(EscapeEntries)
  /** `entity_map.unescape`, as the setup loop leaves it. */
  const UnescapeTable: map<string, char> := Inverted(EscapeEntries)
  /** The entity strings in the order of the unescape alternation. */
  const EntityStrings: seq<string> := ValuesOf(EscapeEntries)

  /** The three tables written out. */
  lemma TablesWrittenOut()
    ensures EscapeTable == map['>' := "&gt;", '<' := "&lt;", '"' := "&quot;", '\'' := "&#x27;", '&' := "&amp;"]
    ensures UnescapeTable == map["&gt;" := '>', "&lt;" := '<', "&quot;" := '"', "&#x27;" := '\'', "&amp;" := '&']
    ensures EntityStrings == ["&gt;", "&lt;", "&quot;", "&#x27;", "&amp;"]
    ensures KeysOf(EscapeEntries) == ['>', '<', '"', '\'', '&']
  {
    var e := EscapeEntries;
    assert e[..5] == e;
    assert e[..5][..4] == e[..4];
    assert e[..4][..3] == e[..3];
    assert e[..3][..2] == e[..2];
    assert e[..2][..1] == e[..1];
    assert e[..1][..0] == [];
    assert TableOf(e[..1]) == map['>' := "&gt;"];
    assert TableOf(e[..2]) == map['>' := "&gt;", '<' := "&lt;"];
    assert TableOf(e[..3]) == map['>' := "&gt;", '<' := "&lt;", '"' := "&quot;"];
    assert TableOf(e[..4]) == map['>' := "&gt;", '<' := "&lt;", '"' := "&quot;", '\'' := "&#x27;"];
    assert Inverted(e[..1]) == map["&gt;" := '>'];
    assert Inverted(e[..2]) == map["&gt;" := '>', "&lt;" := '<'];
    assert Inverted(e[..3]) == map["&gt;" := '>', "&lt;" := '<', "&quot;" := '"'];
    assert Inverted(e[..4]) == map["&gt;" := '>', "&lt;" := '<', "&quot;" := '"', "&#x27;" := '\''];
  }

  /** The five pairs have distinct keys and distinct values. */
  lemma EscapeEntriesDistinct()
    ensures DistinctKeys(EscapeEntries) && DistinctValues(EscapeEntries)
  {
  }

  /** The escape object's keys are the five characters. */
  lemma EscapeKeys()
    ensures EscapeTable.Keys == RawChars
  {
    var e := EscapeEntries;
    TableOfKeys(e);
    assert e[0].0 == '>' && e[1].0 == '<' && e[2].0 == '"' && e[3].0 == '\'' && e[4].0 == '&';
  }

  /** The unescape object's keys are the five entities. */
  lemma UnescapeKeys()
    ensures UnescapeTable.Keys == {"&gt;", "&lt;", "&quot;", "&#x27;", "&amp;"} && |UnescapeTable| == 5
  {
    var e := EscapeEntries;
    InvertedKeys(e);
    assert e[0].1 == "&gt;" && e[1].1 == "&lt;" && e[2].1 == "&quot;" && e[3].1 == "&#x27;" && e[4].1 == "&amp;";
  }

  /** The escape and unescape objects are exact inverses over exactly the five
      characters and their five entities. */
  lemma EscapeUnescapeInverse()
    ensures EscapeTable.Keys == RawChars && |UnescapeTable| == 5
    ensures forall c :: c in EscapeTable ==> EscapeTable[c] in UnescapeTable && UnescapeTable[EscapeTable[c]] == c
    ensures forall e :: e in UnescapeTable ==> UnescapeTable[e] in EscapeTable && EscapeTable[UnescapeTable[e]] == e
  {
    var e := EscapeEntries;
    EscapeEntriesDistinct();
    InvertedIsInverse(e);
    EscapeKeys();
    UnescapeKeys();
    TableOfKeys(e);
    InvertedKeys(e);
    forall c | c in EscapeTable
      ensures EscapeTable[c] in UnescapeTable && UnescapeTable[EscapeTable[c]] == c
    {
      var i :| 0 <= i < |e| && e[i].0 == c;
    }
    forall v | v in UnescapeTable
      ensures UnescapeTable[v] in EscapeTable && EscapeTable[UnescapeTable[v]] == v
    {
      var i :| 0 <= i < |e| && e[i].1 == v;
    }
  }

  /** No alternative is a prefix of a different one (so in particular they are distinct). */
  ghost predicate PrefixFree(alts: seq<string>)
  {
    forall i, j :: 0 <= i < |alts| && 0 <= j < |alts| && i != j ==> !(alts[i] <= alts[j])
  }

  /** Alternatives a global replace can use: each non-empty and found in the lookup object. */
  ghost predicate Usable(alts: seq<string>, table: map<string, char>)
  {
    forall j :: 0 <= j < |alts| ==> |alts[j]| > 0 && alts[j] in table
  }

  lemma EntityStringsShape()
    ensures PrefixFree(EntityStrings) && Usable(EntityStrings, UnescapeTable)
    ensures forall j :: 0 <= j < |EntityStrings| ==> EntityStrings[j][0] == '&'
    ensures forall j, k :: 0 <= j < |EntityStrings| && 0 < k < |EntityStrings[j]| ==> EntityStrings[j][k] != '&'
  {
    TablesWrittenOut();
    var e := EntityStrings;
    forall i, j | 0 <= i < |e| && 0 <= j < |e| && i != j ensures !(e[i] <= e[j]) {
      assert e[i][1] != e[j][1];
    }
  }

  /** The replacement for one character under the escape character class. */
  function EscapeChar(c: char): (r: string)
    ensures |r| > 0
    ensures r[0] == '&' <==> c in RawChars
  {
    TablesWrittenOut();
    if c in KeysOf(EscapeEntries) then EscapeTable[c] else [c]
  }

  /** `str.replace(entity_regex.escape, ...)`: every character of the class is
      replaced by its entity in one left-to-right pass. */
  function EscapeAll(s: string): (r: string)
    ensures |r| >= |s|
  {
    if s == [] then [] else EscapeChar(s[0]) + EscapeAll(s[1..])
  }

  /** Leftmost-first alternation at the start of `s`: the index of the first
      alternative, in order, that `s` starts with. */
  function MatchAt(s: string, alts: seq<string>): (r: Option<nat>)
    ensures r.Some? ==> r.value < |alts| && alts[r.value] <= s
    ensures r.Some? ==> forall j :: 0 <= j < r.value ==> !(alts[j] <= s)
    ensures r.None? ==> forall j :: 0 <= j < |alts| ==> !(alts[j] <= s)
  {
    if alts == [] then None
    else if alts[0] <= s then Some(0)
    else match MatchAt(s, alts[1..])
      case None => None
      case Some(j) => Some(j + 1)
  }

  /** A global replace with the alternation `alts`: at each position the first
      matching alternative is replaced by its character from `table` and the scan
      resumes after it; a position where nothing matches is copied. */
  function UnescapeWith(s: string, alts: seq<string>, table: map<string, char>): (r: string)
    requires Usable(alts, table)
    ensures |r| <= |s|
    ensures r == [] <==> s == []
    decreases |s|
  {
    if s == [] then []
    else match MatchAt(s, alts)
      case Some(j) => [table[alts[j]]] + UnescapeWith(s[|alts[j]|..], alts, table)
      case None => [s[0]] + UnescapeWith(s[1..], alts, table)
  }

  /** `str.replace(entity_regex.unescape, ...)`. */
  function UnescapeAll(s: string): (r: string)
    ensures |r| <= |s|
    ensures r == [] <==> s == []
  {
    EntityStringsShape();
    UnescapeWith(s, EntityStrings, UnescapeTable)
  }

  datatype Direction = Escape | Unescape

  /** `esc`: an empty string is returned as it is, otherwise one global replace
      in the given direction. */
  function Esc(s: string, dir: Direction): (r: string)
    ensures r == (if dir == Escape then EscapeAll(s) else UnescapeAll(s))
  {
    if s == [] then s
    else match dir
      case Escape => EscapeAll(s)
      case Unescape => UnescapeAll(s)
  }

  /** `escapeHtml`: the guard never changes the escaped result. */
  function EscapeHtml(s: string): (r: string)
    ensures r == EscapeAll(s) && |r| >= |s|
  {
    Esc(s, Escape)
  }

  /** `unescapeHtml`: the guard never changes the unescaped result, which is never longer. */
  function UnescapeHtml(s: string): (r: string)
    ensures r == UnescapeAll(s) && |r| <= |s|
  {
    Esc(s, Unescape)
  }

  /** The guard of `esc`: an empty input comes back unchanged in both directions. */
  lemma EmptyPassesThrough()
    ensures EscapeHtml("") == "" && UnescapeHtml("") == ""
  {
  }

  /** Two prefixes of one string are prefixes of each other. */
  lemma PrefixesComparable(a: string, b: string, s: string)
    requires a <= s && b <= s
    ensures a <= b || b <= a
  {
    if |a| <= |b| {
      assert b[..|a|] == s[..|a|];
    } else {
      assert a[..|b|] == s[..|b|];
    }
  }

  /** Two alternatives that are both prefixes of one string are the same one,
      when the alternatives are prefix-free. */
  lemma SamePrefix(alts: seq<string>, s: string, i: nat, j: nat)
    requires PrefixFree(alts) && i < |alts| && j < |alts|
    requires alts[i] <= s && alts[j] <= s
    ensures i == j
  {
    PrefixesComparable(alts[i], alts[j], s);
  }

  /** A character of the class becomes the entity paired with it, which the
      unescape object maps back to it; any other character is copied. */
  lemma EscapeCharCases(c: char) returns (k: nat)
    ensures c in RawChars ==>
      (k < |EntityStrings| && EscapeChar(c) == EntityStrings[k]
       && EntityStrings[k] in UnescapeTable && UnescapeTable[EntityStrings[k]] == c)
    ensures c !in RawChars ==> EscapeChar(c) == [c]
  {
    TablesWrittenOut();
    k := if c == '>' then 0 else if c == '<' then 1 else if c == '"' then 2 else if c == '\'' then 3 else 4;
  }

  /** Unescaping what one character escapes to gives that character back,
      whatever follows it. */
  lemma {:induction false} UnescapeEscapeChar(c: char, t: string)
    ensures UnescapeAll(EscapeChar(c) + t) == [c] + UnescapeAll(t)
  {
    var k := EscapeCharCases(c);
    EntityStringsShape();
    var alts := EntityStrings;
    var s := EscapeChar(c) + t;
    if c in RawChars {
      assert alts[k] <= s;
      var m := MatchAt(s, alts);
      assert m.Some? && m.value == k by {
        if m.Some? { SamePrefix(alts, s, m.value, k); }
      }
      assert s[|alts[k]|..] == t;
    } else {
      assert s[0] == c && s[1..] == t;
      assert MatchAt(s, alts).None? by {
        forall j | 0 <= j < |alts| ensures !(alts[j] <= s) {
          assert alts[j][0] == '&';
        }
      }
    }
  }

  lemma {:induction false} UnescapeEscapeAll(s: string)
    ensures UnescapeAll(EscapeAll(s)) == s
  {
    if s != [] {
      UnescapeEscapeChar(s[0], EscapeAll(s[1..]));
      UnescapeEscapeAll(s[1..]);
    }
  }

  /** The fast path's promise: unescaping an escaped string gives it back, for every string. */
  lemma RoundTrip(s: string)
    ensures UnescapeHtml(EscapeHtml(s)) == s
  {
    UnescapeEscapeAll(s);
  }

  /** A string is safe when it holds none of the raw characters `<` `>` `"` `'`
      and every `&` in it begins one of the entity strings. */
  ghost predicate Safe(r: string)
  {
    forall i :: 0 <= i < |r| ==>
      r[i] !in {'<', '>', '"', '\''} && (r[i] == '&' ==> MatchAt(r[i..], EntityStrings).Some?)
  }

  lemma {:induction false} MatchExtends(x: string, y: string)
    requires MatchAt(x, EntityStrings).Some?
    ensures MatchAt(x + y, EntityStrings).Some?
  {
    var k := MatchAt(x, EntityStrings).value;
    assert EntityStrings[k] <= x + y;
  }

  lemma {:induction false} SafeConcat(a: string, b: string)
    requires Safe(a) && Safe(b)
    ensures Safe(a + b)
  {
    forall i | 0 <= i < |a + b| && (a + b)[i] == '&'
      ensures MatchAt((a + b)[i..], EntityStrings).Some?
    {
      if i < |a| {
        assert (a + b)[i..] == a[i..] + b;
        MatchExtends(a[i..], b);
      } else {
        assert (a + b)[i..] == b[i - |a|..];
      }
    }
  }

  lemma {:induction false} EscapeCharSafe(c: char)
    ensures Safe(EscapeChar(c))
  {
    var k := EscapeCharCases(c);
    EntityStringsShape();
    var r := EscapeChar(c);
    if c in RawChars {
      forall i | 0 <= i < |r| && r[i] == '&' ensures MatchAt(r[i..], EntityStrings).Some? {
        assert i == 0;
        assert EntityStrings[k] <= r[i..];
      }
    }
  }

  lemma {:induction false} EscapeAllSafe(s: string)
    ensures Safe(EscapeAll(s))
  {
    if s != [] {
      EscapeCharSafe(s[0]);
      EscapeAllSafe(s[1..]);
      SafeConcat(EscapeChar(s[0]), EscapeAll(s[1..]));
    }
  }

  /** Escaped output holds no raw `<` `>` `"` `'`, and each `&` in it starts an entity. */
  lemma EscapedIsSafe(s: string)
    ensures forall i :: 0 <= i < |EscapeHtml(s)| ==> EscapeHtml(s)[i] !in {'<', '>', '"', '\''}
    ensures forall i :: 0 <= i < |EscapeHtml(s)| && EscapeHtml(s)[i] == '&' ==>
      MatchAt(EscapeHtml(s)[i..], EntityStrings).Some?
  {
    EscapeAllSafe(s);
  }

  /** With prefix-free alternatives the order of the alternation does not
      change what a global replace produces. */
  lemma {:induction false} OrderIrrelevant(s: string, alts: seq<string>, other: seq<string>, table: map<string, char>)
    requires Usable(alts, table) && Usable(other, table) && PrefixFree(alts)
    requires multiset(alts) == multiset(other)
    ensures UnescapeWith(s, other, table) == UnescapeWith(s, alts, table)
    decreases |s|
  {
    if s != [] {
      var m := MatchAt(s, alts);
      if m.Some? {
        var x := alts[m.value];
        assert x in multiset(other);
        var k :| 0 <= k < |other| && other[k] == x;
        var n := MatchAt(s, other);
        assert n.Some?;
        var y := other[n.value];
        assert y in multiset(alts);
        var l :| 0 <= l < |alts| && alts[l] == y;
        SamePrefix(alts, s, m.value, l);
        OrderIrrelevant(s[|x|..], alts, other, table);
      } else {
        forall k | 0 <= k < |other| ensures !(other[k] <= s) {
          assert other[k] in multiset(alts);
        }
        OrderIrrelevant(s[1..], alts, other, table);
      }
    }
  }

  /** The five entity strings, tried in any order, unescape alike. */
  lemma EntityOrderIrrelevant(s: string, order: seq<string>)
    requires multiset(order) == multiset(EntityStrings)
    ensures Usable(order, UnescapeTable)
    ensures UnescapeWith(s, order, UnescapeTable) == UnescapeAll(s)
  {
    EntityStringsShape();
    forall j | 0 <= j < |order| ensures |order[j]| > 0 && order[j] in UnescapeTable {
      assert order[j] in multiset(EntityStrings);
    }
    OrderIrrelevant(s, EntityStrings, order, UnescapeTable);
  }
}
