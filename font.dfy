/** The character table both codec directions read: `kanji` maps a font
    index to one display character, `specialCharacters` maps a font index to
    a longer string. The table is filled from the lines of a tab-separated
    font file by `CreateFontFromFile` (Program.cs:276-322). */
module Font {
  import opened Wrappers
  import opened Bytes

  /** `kanjiOrder` lists the keys of `kanji` in insertion order, which is
      the order `kanji.ToList()` enumerates them in. */
  datatype FontTable = FontTable(kanji: map<u16, char>, kanjiOrder: seq<u16>, special: map<u16, string>)
  {
    ghost predicate Valid()
    {
      (forall i, j :: 0 <= i < j < |kanjiOrder| ==> kanjiOrder[i] != kanjiOrder[j]) &&
      (forall k :: k in kanji <==> k in kanjiOrder)
    }
  }

  const EmptyTable := FontTable(map[], [], map[])

  // ---------------------------------------------------------------------
  // Reverse lookup (Program.cs:706, 751, 758)

  predicate MatchesAt(order: seq<u16>, kanji: map<u16, char>, c: char, i: int)
    requires 0 <= i < |order|
  {
    order[i] in kanji && kanji[order[i]] == c
  }

  /** `fontChars.Find(pair => pair.Value == c).Key`, scanning from
      position `from` (see `FindKanjiFirst`). */
  function FindKanji(order: seq<u16>, kanji: map<u16, char>, c: char, from: nat): u16
    decreases |order| - from
  {
    if from >= |order| then 0
    else if MatchesAt(order, kanji, c, from) then order[from]
    else FindKanji(order, kanji, c, from + 1)
  }

  /** With no pair for c from `from` on, the lookup yields the default
      key 0. */
  lemma {:induction false} FindKanjiNone(order: seq<u16>, kanji: map<u16, char>, c: char, from: nat)
    requires forall i :: from <= i < |order| ==> !MatchesAt(order, kanji, c, i)
    ensures FindKanji(order, kanji, c, from) == 0
    decreases |order| - from
  {
    if from < |order| {
      FindKanjiNone(order, kanji, c, from + 1);
    }
  }

  /** The lookup yields the key of the first pair from `from` on, in list
      order, whose character is c. */
  lemma {:induction false} FindKanjiAt(order: seq<u16>, kanji: map<u16, char>, c: char, from: nat, i: nat)
    requires from <= i < |order| && MatchesAt(order, kanji, c, i)
    requires forall j :: from <= j < i ==> !MatchesAt(order, kanji, c, j)
    ensures FindKanji(order, kanji, c, from) == order[i]
    decreases i - from
  {
    if from < i {
      FindKanjiAt(order, kanji, c, from + 1, i);
    }
  }

  /** The font index the encoder uses for a display character. The
      `specialCharacters` map is never consulted. */
  function ReverseLookup(font: FontTable, c: char): u16
  {
    FindKanji(font.kanjiOrder, font.kanji, c, 0)
  }

  /** A character with at least one `kanji` entry resolves to an entry
      holding that character; one with none resolves to index 0. */
  lemma ReverseLookupSound(font: FontTable, c: char)
    requires font.Valid()
    ensures (exists k :: k in font.kanji && font.kanji[k] == c) ==>
              ReverseLookup(font, c) in font.kanji && font.kanji[ReverseLookup(font, c)] == c
    ensures (forall k :: k in font.kanji ==> font.kanji[k] != c) ==> ReverseLookup(font, c) == 0
  {
    var order := font.kanjiOrder;
    if k :| k in font.kanji && font.kanji[k] == c {
      assert k in order;
      var i :| 0 <= i < |order| && order[i] == k;
      assert MatchesAt(order, font.kanji, c, i);
      var m := FirstMatch(order, font.kanji, c, i);
      FindKanjiAt(order, font.kanji, c, 0, m);
    } else {
      assert forall i :: 0 <= i < |order| ==> !MatchesAt(order, font.kanji, c, i);
      FindKanjiNone(order, font.kanji, c, 0);
    }
  }

  /** The least index at which the character matches, given that one does. */
  lemma {:induction false} FirstMatch(order: seq<u16>, kanji: map<u16, char>, c: char, i: nat) returns (m: nat)
    requires i < |order| && MatchesAt(order, kanji, c, i)
    ensures m <= i && MatchesAt(order, kanji, c, m)
    ensures forall j :: 0 <= j < m ==> !MatchesAt(order, kanji, c, j)
    decreases i
  {
    if j :| 0 <= j < i && MatchesAt(order, kanji, c, j) {
      m := FirstMatch(order, kanji, c, j);
    } else {
      m := i;
    }
  }

  // ---------------------------------------------------------------------
  // Font file lines (Program.cs:296-318)

  datatype FontError = BadIndex(line: string) | MissingValue(line: string)

  datatype FontLine = FontLine(index: u16, value: string)

  /** Position of the first tab in s, or |s| when there is none. */
  function TabIndex(s: string): (t: nat)
    ensures t <= |s| && (t < |s| ==> s[t] == '\t')
    ensures forall i :: 0 <= i < t ==> s[i] != '\t'
  {
    if s == [] then 0 else if s[0] == '\t' then 0 else 1 + TabIndex(s[1..])
  }

  /** `line.Split("\t")` then `Convert.ToUInt16("0x" + split[0], 16)` and
      `split[1]`: the index is read before the value, so a bad index is
      reported even when there is no tab. */
  function ParseFontLine(line: string): (r: Result<FontLine, FontError>)
  {
    var t := TabIndex(line);
    match ParseHexU16(line[..t])
    case None => Err(BadIndex(line))
    case Some(k) =>
      if t == |line| then Err(MissingValue(line))
      else
        var rest := line[t + 1..];
        Ok(FontLine(k, rest[..TabIndex(rest)]))
  }

  /** A line written the way the font file stores an entry (hex index,
      tab, value) reads back as that entry. */
  lemma FontLineRoundTrip(k: u16, v: string)
    requires '\t' !in v
    ensures ParseFontLine(HexX2(k as int) + "\t" + v) == Ok(FontLine(k, v))
  {
    var h := HexX2(k as int);
    var line := h + "\t" + v;
    assert '\t' !in h by {
      forall i | 0 <= i < |h| ensures h[i] != '\t' { assert IsHexDigit(h[i]); }
    }
    TabIndexAt(h, "\t" + v);
    assert line == h + ("\t" + v);
    assert TabIndex(line) == |h|;
    assert line[..|h|] == h;
    ParseHexX2(k);
    assert ParseHexU16(line[..TabIndex(line)]) == Some(k);
    var rest := line[|h| + 1..];
    assert rest == v;
    TabIndexAt(v, []);
    assert v + [] == v;
    assert rest[..TabIndex(rest)] == v;
  }

  lemma {:induction false} TabIndexAt(a: string, b: string)
    requires '\t' !in a && (b == [] || b[0] == '\t')
    ensures TabIndex(a + b) == |a|
    decreases |a|
  {
    if a != [] {
      assert (a + b)[0] == a[0];
      assert (a + b)[1..] == a[1..] + b;
      TabIndexAt(a[1..], b);
    }
  }

  /** Whether the line goes to `kanji` (a one-character value) or to
      `specialCharacters` (anything else). */
  predicate IsKanji(p: FontLine)
  {
    |p.value| == 1
  }

  // ---------------------------------------------------------------------
  // Building the table (specification of CreateFontFromFile)

  datatype FontState = FontState(table: FontTable, duplicates: seq<string>)

  const EmptyState := FontState(EmptyTable, [])

  /** One iteration of the font-file loop: `TryAdd` into the map the value
      belongs to, recording the line as a duplicate when the key is taken. */
  function AddLine(st: FontState, line: string): (r: Result<FontState, FontError>)
  {
    var p :- ParseFontLine(line);
    if IsKanji(p) then
      if p.index in st.table.kanji then Ok(st.(duplicates := st.duplicates + [line]))
      else Ok(st.(table := st.table.(kanji := st.table.kanji[p.index := p.value[0]],
                                     kanjiOrder := st.table.kanjiOrder + [p.index])))
    else
      if p.index in st.table.special then Ok(st.(duplicates := st.duplicates + [line]))
      else Ok(st.(table := st.table.(special := st.table.special[p.index := p.value])))
  }

  /** The state after reading all of `lines`, starting from cleared maps. */
  function BuildFont(lines: seq<string>): Result<FontState, FontError>
  {
    if lines == [] then Ok(EmptyState)
    else
      var st :- BuildFont(lines[..|lines| - 1]);
      AddLine(st, lines[|lines| - 1])
  }

  /** Line `line` carries key k for the map `kanji` (when `toKanji`) or
      `specialCharacters`. */
  predicate HasSlot(line: string, k: u16, toKanji: bool)
  {
    ParseFontLine(line).Ok? && ParseFontLine(line).value.index == k && IsKanji(ParseFontLine(line).value) == toKanji
  }

  /** Two lines compete for the same key of the same map. */
  predicate SameSlot(a: string, b: string)
  {
    ParseFontLine(a).Ok? && ParseFontLine(b).Ok? &&
    HasSlot(a, ParseFontLine(b).value.index, IsKanji(ParseFontLine(b).value))
  }

  /** Reference definition of the duplicate list: every line whose key is
      already claimed, in its map, by an earlier line. */
  function Duplicates(lines: seq<string>): seq<string>
  {
    if lines == [] then []
    else
      var init, last := lines[..|lines| - 1], lines[|lines| - 1];
      Duplicates(init) + (if exists i :: 0 <= i < |init| && SameSlot(init[i], last) then [last] else [])
  }

  /** Reference definition of the `kanji` enumeration order: the key of
      every one-character line that no earlier line claims for `kanji`. */
  function KanjiFirstOrder(lines: seq<string>): seq<u16>
  {
    if lines == [] then []
    else
      var init, last := lines[..|lines| - 1], lines[|lines| - 1];
      KanjiFirstOrder(init) +
        (if ParseFontLine(last).Ok? && IsKanji(ParseFontLine(last).value) &&
            !exists i :: 0 <= i < |init| && HasSlot(init[i], ParseFontLine(last).value.index, true)
         then [ParseFontLine(last).value.index] else [])
  }

  /** What reading `lines` builds: a valid table whose keys are exactly
      the keys of the lines, each key holding the value of its first line
      in its map, `kanji` enumerated in first-line order, and a duplicate
      list equal to the reference one. */
  ghost predicate Built(lines: seq<string>, st: FontState)
  {
    st.table.Valid() && KeysOf(lines, st.table) && FirstWins(lines, st.table) &&
    st.table.kanjiOrder == KanjiFirstOrder(lines) &&
    st.duplicates == Duplicates(lines)
  }

  ghost predicate KeysOf(lines: seq<string>, t: FontTable)
  {
    KeysIn(lines, t.kanji.Keys, true) && KeysIn(lines, t.special.Keys, false)
  }

  /** The keys are exactly those some line claims in one of the maps. */
  ghost predicate KeysIn(lines: seq<string>, keys: set<u16>, toKanji: bool)
  {
    forall k :: k in keys <==> exists i :: 0 <= i < |lines| && HasSlot(lines[i], k, toKanji)
  }

  ghost predicate FirstWins(lines: seq<string>, t: FontTable)
  {
    KanjiFirstWins(lines, t.kanji) && SpecialFirstWins(lines, t.special)
  }

  /** Each `kanji` key holds the character of its first line. */
  ghost predicate KanjiFirstWins(lines: seq<string>, kanji: map<u16, char>)
  {
    forall k :: k in kanji ==> exists i :: FirstLine(lines, k, i, true) && kanji[k] == ParseFontLine(lines[i]).value.value[0]
  }

  /** Each `specialCharacters` key holds the string of its first line. */
  ghost predicate SpecialFirstWins(lines: seq<string>, special: map<u16, string>)
  {
    forall k :: k in special ==> exists i :: FirstLine(lines, k, i, false) && special[k] == ParseFontLine(lines[i]).value.value
  }

  lemma StepValid(st: FontState, line: string)
    requires st.table.Valid() && AddLine(st, line).Ok?
    ensures AddLine(st, line).value.table.Valid()
  {
    var p := ParseFontLine(line).value;
    var t' := AddLine(st, line).value.table;
    if IsKanji(p) && p.index !in st.table.kanji {
      var order := st.table.kanjiOrder;
      assert p.index !in order;
      forall i, j | 0 <= i < j < |t'.kanjiOrder| ensures t'.kanjiOrder[i] != t'.kanjiOrder[j] {
        if j == |order| {
          assert t'.kanjiOrder[i] == order[i];
        }
      }
    }
  }

  lemma StepKeys(init: seq<string>, last: string, st: FontState)
    requires KeysOf(init, st.table) && AddLine(st, last).Ok?
    ensures KeysOf(init + [last], AddLine(st, last).value.table)
  {
    var t, t' := st.table, AddLine(st, last).value.table;
    var p := ParseFontLine(last).value;
    assert t'.kanji.Keys == if IsKanji(p) then t.kanji.Keys + {p.index} else t.kanji.Keys;
    assert t'.special.Keys == if IsKanji(p) then t.special.Keys else t.special.Keys + {p.index};
    StepKeysIn(init, last, t.kanji.Keys, t'.kanji.Keys, true);
    StepKeysIn(init, last, t.special.Keys, t'.special.Keys, false);
  }

  /** One more line adds its key to the map it goes to, if not there. */
  lemma StepKeysIn(init: seq<string>, last: string, keys: set<u16>, keys': set<u16>, toKanji: bool)
    requires KeysIn(init, keys, toKanji) && ParseFontLine(last).Ok?
    requires var p := ParseFontLine(last).value;
             keys' == if IsKanji(p) == toKanji then keys + {p.index} else keys
    ensures KeysIn(init + [last], keys', toKanji)
  {
    var lines := init + [last];
    assert lines[|init|] == last;
    assert forall i :: 0 <= i < |init| ==> lines[i] == init[i];
  }

  /** Line i is the first line carrying key k for `kanji` (when
      `toKanji`) or for `specialCharacters`. */
  ghost predicate FirstLine(lines: seq<string>, k: u16, i: int, toKanji: bool)
  {
    0 <= i < |lines| && HasSlot(lines[i], k, toKanji) &&
    forall j :: 0 <= j < i ==> !HasSlot(lines[j], k, toKanji)
  }

  lemma StepFirstOld(init: seq<string>, last: string, k: u16, i: int, toKanji: bool)
    requires FirstLine(init, k, i, toKanji)
    ensures FirstLine(init + [last], k, i, toKanji) && (init + [last])[i] == init[i]
  {
    var lines := init + [last];
    assert forall j :: 0 <= j <= i ==> lines[j] == init[j];
  }

  lemma StepFirstNew(init: seq<string>, last: string, k: u16, toKanji: bool)
    requires forall j :: 0 <= j < |init| ==> !HasSlot(init[j], k, toKanji)
    requires HasSlot(last, k, toKanji)
    ensures FirstLine(init + [last], k, |init|, toKanji) && (init + [last])[|init|] == last
  {
    var lines := init + [last];
    assert forall j :: 0 <= j < |init| ==> lines[j] == init[j];
    assert lines[|init|] == last;
  }

  /** What one line does to the `kanji` map. */
  lemma AddLineKanji(st: FontState, line: string)
    requires AddLine(st, line).Ok?
    ensures var p := ParseFontLine(line).value;
            AddLine(st, line).value.table.kanji ==
              if IsKanji(p) && p.index !in st.table.kanji then st.table.kanji[p.index := p.value[0]]
              else st.table.kanji
  {
  }

  /** What one line does to the `specialCharacters` map. */
  lemma AddLineSpecial(st: FontState, line: string)
    requires AddLine(st, line).Ok?
    ensures var p := ParseFontLine(line).value;
            AddLine(st, line).value.table.special ==
              if !IsKanji(p) && p.index !in st.table.special then st.table.special[p.index := p.value]
              else st.table.special
  {
  }

  lemma StepFirst(init: seq<string>, last: string, st: FontState)
    requires KeysOf(init, st.table) && FirstWins(init, st.table) && AddLine(st, last).Ok?
    ensures FirstWins(init + [last], AddLine(st, last).value.table)
  {
    AddLineKanji(st, last);
    AddLineSpecial(st, last);
    StepFirstKanji(init, last, st.table.kanji, AddLine(st, last).value.table.kanji);
    StepFirstSpecial(init, last, st.table.special, AddLine(st, last).value.table.special);
  }

  lemma StepFirstKanji(init: seq<string>, last: string, kanji: map<u16, char>, kanji': map<u16, char>)
    requires KeysIn(init, kanji.Keys, true) && KanjiFirstWins(init, kanji) && ParseFontLine(last).Ok?
    requires var p := ParseFontLine(last).value;
             kanji' == if IsKanji(p) && p.index !in kanji then kanji[p.index := p.value[0]] else kanji
    ensures KanjiFirstWins(init + [last], kanji')
  {
    var lines := init + [last];
    forall k | k in kanji'
      ensures exists i :: FirstLine(lines, k, i, true) && kanji'[k] == ParseFontLine(lines[i]).value.value[0]
    {
      if k in kanji {
        var i :| FirstLine(init, k, i, true) && kanji[k] == ParseFontLine(init[i]).value.value[0];
        StepFirstOld(init, last, k, i, true);
        KeptKanji(kanji, kanji', ParseFontLine(last).value, k);
      } else {
        var p := ParseFontLine(last).value;
        assert k == p.index && IsKanji(p) && kanji'[k] == p.value[0];
        StepFirstNew(init, last, k, true);
      }
    }
  }

  /** A key already in `kanji` keeps its character. */
  lemma KeptKanji(kanji: map<u16, char>, kanji': map<u16, char>, p: FontLine, k: u16)
    requires kanji' == if IsKanji(p) && p.index !in kanji then kanji[p.index := p.value[0]] else kanji
    requires k in kanji
    ensures k in kanji' && kanji'[k] == kanji[k]
  {
  }

  lemma StepFirstSpecial(init: seq<string>, last: string, special: map<u16, string>, special': map<u16, string>)
    requires KeysIn(init, special.Keys, false) && SpecialFirstWins(init, special) && ParseFontLine(last).Ok?
    requires var p := ParseFontLine(last).value;
             special' == if !IsKanji(p) && p.index !in special then special[p.index := p.value] else special
    ensures SpecialFirstWins(init + [last], special')
  {
    var lines := init + [last];
    forall k | k in special'
      ensures exists i :: FirstLine(lines, k, i, false) && special'[k] == ParseFontLine(lines[i]).value.value
    {
      if k in special {
        var i :| FirstLine(init, k, i, false) && special[k] == ParseFontLine(init[i]).value.value;
        StepFirstOld(init, last, k, i, false);
      } else {
        assert HasSlot(last, k, false);
        StepFirstNew(init, last, k, false);
      }
    }
  }

  lemma StepOrder(init: seq<string>, last: string, st: FontState)
    requires KeysOf(init, st.table) && st.table.kanjiOrder == KanjiFirstOrder(init) && AddLine(st, last).Ok?
    ensures AddLine(st, last).value.table.kanjiOrder == KanjiFirstOrder(init + [last])
  {
    var lines := init + [last];
    assert lines[..|lines| - 1] == init;
    var p := ParseFontLine(last).value;
    if exists i :: 0 <= i < |init| && HasSlot(init[i], p.index, true) {
      var i :| 0 <= i < |init| && HasSlot(init[i], p.index, true);
      assert IsKanji(p) ==> p.index in st.table.kanji;
    }
  }

  lemma StepDuplicates(init: seq<string>, last: string, st: FontState)
    requires KeysOf(init, st.table) && st.duplicates == Duplicates(init) && AddLine(st, last).Ok?
    ensures AddLine(st, last).value.duplicates == Duplicates(init + [last])
  {
    var lines := init + [last];
    assert lines[..|lines| - 1] == init;
    var p := ParseFontLine(last).value;
    if exists i :: 0 <= i < |init| && SameSlot(init[i], last) {
      var i :| 0 <= i < |init| && SameSlot(init[i], last);
      assert HasSlot(init[i], p.index, IsKanji(p));
    }
  }

  /** One more line keeps what `Built` describes. */
  lemma StepBuilt(init: seq<string>, last: string, st: FontState)
    requires Built(init, st) && AddLine(st, last).Ok?
    ensures Built(init + [last], AddLine(st, last).value)
  {
    StepValid(st, last);
    StepKeys(init, last, st);
    StepFirst(init, last, st);
    StepOrder(init, last, st);
    StepDuplicates(init, last, st);
  }

  /** Reading succeeds exactly when every line parses, and then builds
      what `Built` describes. */
  lemma {:induction false} BuildFontCorrect(lines: seq<string>)
    ensures BuildFont(lines).Ok? <==> forall i :: 0 <= i < |lines| ==> ParseFontLine(lines[i]).Ok?
    ensures BuildFont(lines).Ok? ==> Built(lines, BuildFont(lines).value)
  {
    BuildFontOk(lines);
    BuildFontBuilt(lines);
  }

  lemma {:induction false} BuildFontOk(lines: seq<string>)
    ensures BuildFont(lines).Ok? <==> forall i :: 0 <= i < |lines| ==> ParseFontLine(lines[i]).Ok?
    decreases |lines|
  {
    if lines != [] {
      var init, last := lines[..|lines| - 1], lines[|lines| - 1];
      BuildFontOk(init);
      assert forall i :: 0 <= i < |init| ==> init[i] == lines[i];
      if BuildFont(init).Err? {
        var i :| 0 <= i < |init| && !ParseFontLine(init[i]).Ok?;
        assert !ParseFontLine(lines[i]).Ok?;
      }
    }
  }

  lemma {:induction false} BuildFontBuilt(lines: seq<string>)
    ensures BuildFont(lines).Ok? ==> Built(lines, BuildFont(lines).value)
    decreases |lines|
  {
    if lines != [] {
      var init, last := lines[..|lines| - 1], lines[|lines| - 1];
      assert lines == init + [last];
      BuildFontBuilt(init);
      if BuildFont(init).Ok? && AddLine(BuildFont(init).value, last).Ok? {
        StepBuilt(init, last, BuildFont(init).value);
      }
    }
  }

  /** `CreateFontFromFile` returns true exactly when no two lines claim the
      same key of the same map. */
  lemma {:induction false} NoDuplicatesIff(lines: seq<string>)
    ensures Duplicates(lines) == [] <==> forall i, j :: 0 <= i < j < |lines| ==> !SameSlot(lines[i], lines[j])
    decreases |lines|
  {
    if lines != [] {
      var init, last := lines[..|lines| - 1], lines[|lines| - 1];
      NoDuplicatesIff(init);
      assert forall i :: 0 <= i < |init| ==> init[i] == lines[i];
      if Duplicates(lines) == [] {
        forall i, j | 0 <= i < j < |lines| ensures !SameSlot(lines[i], lines[j]) {
          if j == |lines| - 1 {
            assert !SameSlot(init[i], last);
          } else {
            assert !SameSlot(init[i], init[j]);
          }
        }
      } else if Duplicates(init) == [] {
        var i :| 0 <= i < |init| && SameSlot(init[i], last);
        assert SameSlot(lines[i], lines[|lines| - 1]);
      } else {
        var i, j :| 0 <= i < j < |init| && SameSlot(init[i], init[j]);
        assert SameSlot(lines[i], lines[j]);
      }
    }
  }

  // ---------------------------------------------------------------------
  // The static dictionaries filled in place (Program.cs:276-322)

  /** The mutable `kanji` / `specialCharacters` dictionaries and the
      duplicate list that `CreateFontFromFile` fills. */
  class FontLoader {
    var kanji: map<u16, char>
    var kanjiOrder: seq<u16>
    var special: map<u16, string>
    var duplicates: seq<string>

    function Table(): FontTable
      reads this
    {
      FontTable(kanji, kanjiOrder, special)
    }

    function State(): FontState
      reads this
    {
      FontState(Table(), duplicates)
    }

    constructor ()
      ensures State() == EmptyState
    {
      kanji, kanjiOrder, special, duplicates := map[], [], map[], [];
    }

    /** One line of the font file: split, parse the index, `TryAdd`. */
    method AddFontLine(line: string) returns (r: Result<(), FontError>)
      modifies this
      ensures r.Ok? <==> AddLine(old(State()), line).Ok?
      ensures r.Ok? ==> State() == AddLine(old(State()), line).value
      ensures r.Err? ==> r.error == AddLine(old(State()), line).error && State() == old(State())
    {
      var t := TabIndex(line);
      var index := ParseHexU16(line[..t]);
      if index.None? {
        return Err(BadIndex(line));
      }
      if t == |line| {
        return Err(MissingValue(line));
      }
      var rest := line[t + 1..];
      var value := rest[..TabIndex(rest)];
      var k := index.value;
      if |value| == 1 {
        if k in kanji {
          duplicates := duplicates + [line];
        } else {
          kanji := kanji[k := value[0]];
          kanjiOrder := kanjiOrder + [k];
        }
      } else {
        if k in special {
          duplicates := duplicates + [line];
        } else {
          special := special[k := value];
        }
      }
      r := Ok(());
    }

    /** `CreateFontFromFile` over the lines of the font file: clear the
        dictionaries, add every line, and succeed when there were no
        duplicates. A line that does not parse stops the load. */
    method CreateFontFromLines(lines: seq<string>) returns (r: Result<bool, FontError>)
      modifies this
      ensures r.Ok? <==> BuildFont(lines).Ok?
      ensures r.Ok? ==> State() == BuildFont(lines).value && (r.value <==> duplicates == [])
      ensures r.Err? ==> r.error == BuildFont(lines).error
    {
      duplicates := [];
      kanji, kanjiOrder, special := map[], [], map[];
      var i := 0;
      while i < |lines|
        invariant 0 <= i <= |lines|
        invariant BuildFont(lines[..i]) == Ok(State())
      {
        var added := AddFontLine(lines[i]);
        assert lines[..i + 1][..i] == lines[..i];
        if added.Err? {
          FailureStops(lines, i + 1);
          return Err(added.error);
        }
        i := i + 1;
      }
      assert lines[..i] == lines;
      r := Ok(|duplicates| == 0);
    }
  }

  /** Once a prefix of the lines fails to load, the whole file fails with
      the same error. */
  lemma {:induction false} FailureStops(lines: seq<string>, n: nat)
    requires n <= |lines| && BuildFont(lines[..n]).Err?
    ensures BuildFont(lines) == BuildFont(lines[..n])
    decreases |lines| - n
  {
    if n < |lines| {
      assert lines[..n + 1][..n] == lines[..n];
      FailureStops(lines, n + 1);
    } else {
      assert lines[..n] == lines;
    }
  }
}
