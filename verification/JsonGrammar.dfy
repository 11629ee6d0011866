/** The texts that cJSON accepts. */
module JsonGrammar {
  // A grammar for them, as trees that are written out: the parser accepts exactly these texts, with
  // the values of the trees, whatever gaps are between the parts.
  import opened Json
  import opened JsonParse
  import JsonRoundTrip
  import opened JsonNumber
  import opened JsonMinified

  /** A text with its parts: gaps are whitespace. */
  datatype Tree =
    | Leaf(text: string, value: Json)
    | List(gap: string, items: seq<Item>)
    | Map(gap: string, pairs: seq<Pair>)

  datatype Item = Item(before: string, tree: Tree, after: string)

  datatype Pair = Pair(before: string, quoted: string, name: string, colon: string, item: Item)

  // ----- the text and the value of a tree -----

  function Write(t: Tree): string
    decreases t, 0
  {
    match t
    case Leaf(text, value) => text
    case List(gap, items) => "[" + (if items == [] then gap else WriteItems(items)) + "]"
    case Map(gap, pairs) => "{" + (if pairs == [] then gap else WritePairs(pairs)) + "}"
  }

  function WriteItem(i: Item): string
    decreases i, 1
  {
    i.before + Write(i.tree) + i.after
  }

  function WriteItems(items: seq<Item>): string
    requires items != []
    decreases items, 2
  {
    WriteItem(items[0]) + if |items| == 1 then "" else "," + WriteItems(items[1..])
  }

  function WritePair(p: Pair): string
    decreases p, 2
  {
    p.before + p.quoted + p.colon + ":" + WriteItem(p.item)
  }

  function WritePairs(pairs: seq<Pair>): string
    requires pairs != []
    decreases pairs, 3
  {
    WritePair(pairs[0]) + if |pairs| == 1 then "" else "," + WritePairs(pairs[1..])
  }

  function Meaning(t: Tree): Json
    decreases t, 0
  {
    match t
    case Leaf(text, value) => value
    case List(gap, items) => Array(Meanings(items))
    case Map(gap, pairs) => Object(Members(pairs))
  }

  function Meanings(items: seq<Item>): seq<Json>
    decreases items, 1
  {
    if items == [] then [] else [Meaning(items[0].tree)] + Meanings(items[1..])
  }

  function Members(pairs: seq<Pair>): seq<Member>
    decreases pairs, 1
  {
    if pairs == [] then [] else [Member(pairs[0].name, Meaning(pairs[0].item.tree))] + Members(pairs[1..])
  }

  // ----- which trees are good -----

  predicate IsGap(s: string) {
    forall i :: 0 <= i < |s| ==> s[i] as int <= 32
  }

  /** The closing quote is there. */
  predicate Closed(s: string)
    decreases |s|
  {
    if s == "" then false
    else if s[0] == '\"' then true
    else if s[0] != '\\' then Closed(s[1..])
    else 1 + Unescape(s[1..]).1 <= |s| && Closed(s[1 + Unescape(s[1..]).1..])
  }

  /** A string literal and its value. */
  predicate IsQuoted(text: string, value: string) {
    text != "" && text[0] == '\"' && Closed(text[1..]) && ParseChars(text[1..]) == Ok(value, "")
  }

  predicate IsNumeral(text: string, value: real) {
    text != "" && (text[0] == '-' || IsDigit(text[0])) && ParseNumber(text) == (value, "")
  }

  predicate GoodLeaf(text: string, value: Json) {
    match value
    case Null => text == "null"
    case False => text == "false"
    case True => text == "true"
    case Number(value) => IsNumeral(text, value)
    case String(value) => IsQuoted(text, value)
    case _ => false
  }

  predicate Good(t: Tree)
    decreases t, 0
  {
    match t
    case Leaf(text, value) => GoodLeaf(text, value)
    case List(gap, items) => IsGap(gap) && forall i :: 0 <= i < |items| ==> GoodItem(items[i])
    case Map(gap, pairs) => IsGap(gap) && forall i :: 0 <= i < |pairs| ==> GoodPair(pairs[i])
  }

  predicate GoodItem(i: Item)
    decreases i, 1
  {
    IsGap(i.before) && IsGap(i.after) && Good(i.tree)
  }

  predicate GoodPair(p: Pair)
    decreases p, 2
  {
    IsGap(p.before) && IsGap(p.colon) && IsQuoted(p.quoted, p.name) && GoodItem(p.item)
  }

  // ----- gaps -----

  lemma {:induction false} SkipGap(g: string, s: string)
    requires IsGap(g)
    ensures Skip(g + s) == Skip(s)
  {
    if g == "" {
      assert g + s == s;
    } else {
      assert (g + s)[1..] == g[1..] + s;
      SkipGap(g[1..], s);
    }
  }

  lemma SkipNothing(s: string)
    requires s == "" || 32 < s[0] as int
    ensures Skip(s) == s
  {}

  /** What Skip leaves out is a gap. */
  lemma {:induction false} Skipped(s: string) returns (g: string)
    ensures IsGap(g) && s == g + Skip(s)
    ensures Skip(s) != "" ==> 32 < Skip(s)[0] as int
  {
    if s != "" && s[0] as int <= 32 {
      var h := Skipped(s[1..]);
      g := [s[0]] + h;
    } else {
      g := "";
    }
  }

  // ----- literals do not look beyond their closing quote -----

  lemma UnescapeLocal(s: string, x: string)
    requires var u := Unescape(s).1; u <= |s| && Closed(s[u..])
    ensures Unescape(s + x) == Unescape(s)
  {
    var t := s + x;
    assert forall i :: 0 <= i < |s| ==> t[i] == s[i];
  }

  lemma {:induction false} CharsLocal(s: string, x: string)
    requires Closed(s)
    ensures Closed(s + x) && (ParseChars(s).Ok? ==> ParseChars(s + x) == Ok(ParseChars(s).value, ParseChars(s).rest + x))
    decreases |s|
  {
    var t := s + x;
    if s[0] == '\"' {
      assert t[1..] == s[1..] + x;
    } else if s[0] != '\\' {
      assert t[1..] == s[1..] + x;
      CharsLocal(s[1..], x);
    } else {
      var u := Unescape(s[1..]).1;
      assert t[1..] == s[1..] + x;
      assert s[1..][u..] == s[1 + u..];
      UnescapeLocal(s[1..], x);
      assert t[1 + u..] == s[1 + u..] + x;
      CharsLocal(s[1 + u..], x);
    }
  }

  lemma UnescapePrefix(s: string, k: nat)
    requires Unescape(s).1 <= k <= |s| && Closed(s[Unescape(s).1..k])
    ensures Unescape(s[..k]) == Unescape(s)
  {
    var p, u := s[..k], Unescape(s).1;
    assert s[u..k][0] == p[u] == s[u];
    assert forall i :: 0 <= i < k ==> p[i] == s[i];
  }

  /** The text that a closed literal takes is a literal by itself. */
  lemma {:induction false} CharsPrefix(s: string)
    requires Closed(s) && ParseChars(s).Ok?
    ensures var r := ParseChars(s);
      s[|s| - |r.rest|..] == r.rest && Closed(s[..|s| - |r.rest|]) && ParseChars(s[..|s| - |r.rest|]) == Ok(r.value, "")
    decreases |s|
  {
    hide Unescape;
    var r := ParseChars(s);
    var k := |s| - |r.rest|;
    if s[0] == '\"' {
      assert s[..k] == "\"" && "\""[1..] == "";
    } else if s[0] != '\\' {
      CharsPrefix(s[1..]);
      PlainPrefix(s, k);
    } else {
      var u := Unescape(s[1..]).1;
      var tail := s[1 + u..];
      CharsPrefix(tail);
      assert k == 1 + u + (|tail| - |r.rest|);
      EscapePrefix(s, u, k);
    }
  }

  lemma PlainPrefix(s: string, k: nat)
    requires s != "" && s[0] != '\\' && s[0] != '\"' && 1 <= k <= |s|
    requires Closed(s[1..][..k - 1]) && ParseChars(s[1..][..k - 1]).Ok?
    ensures var q := ParseChars(s[1..][..k - 1]);
      Closed(s[..k]) && ParseChars(s[..k]) == Ok([s[0]] + q.value, q.rest)
  {
    hide Unescape;
    assert s[..k][1..] == s[1..][..k - 1];
  }

  lemma EscapePrefix(s: string, u: nat, k: nat)
    requires s != "" && s[0] == '\\' && u == Unescape(s[1..]).1 && 1 + u <= k <= |s|
    requires Closed(s[1 + u..][..k - 1 - u]) && ParseChars(s[1 + u..][..k - 1 - u]).Ok?
    ensures var q := ParseChars(s[1 + u..][..k - 1 - u]);
      Closed(s[..k]) && ParseChars(s[..k]) == Ok(Unescape(s[1..]).0 + q.value, q.rest)
  {
    hide Unescape;
    var p := s[..k];
    Slices(s, u, k);
    UnescapePrefix(s[1..], k - 1);
  }

  lemma Slices(s: string, u: nat, k: nat)
    requires 1 + u <= k <= |s|
    ensures s[..k][1 + u..] == s[1 + u..][..k - 1 - u]
    ensures s[1..][u..k - 1] == s[1 + u..][..k - 1 - u]
    ensures s[1..][..k - 1] == s[..k][1..]
  {}

  // ----- every text of the grammar is accepted -----

  lemma NothingStops()
    ensures Stops("")
  {}

  lemma NumeralParses(text: string, value: real, r: string)
    requires IsNumeral(text, value) && Ends(r)
    ensures ParseValue(text + r) == Ok(Number(value), r)
  {
    hide ParseNumber, Ends;
    EndsStop(r);
    NothingStops();
    NumberLocal(text, r);
    assert text[..|text| - 0] == text;
    assert (text + r)[0] == text[0];
    NotWord(text + r);
  }

  lemma QuotedParses(text: string, value: string, r: string)
    requires IsQuoted(text, value)
    ensures ParseString(text + r) == Ok(value, r)
  {
    hide ParseChars, Closed;
    CharsLocal(text[1..], r);
    assert (text + r)[1..] == text[1..] + r;
    assert "" + r == r;
  }

  lemma LeafParses(text: string, value: Json, r: string)
    requires GoodLeaf(text, value) && Ends(r)
    ensures ParseValue(text + r) == Ok(value, r)
  {
    hide Ends, IsNumeral, IsQuoted, ParseNumber;
    match value
    case Null => JsonRoundTrip.ValueWord("null", r);
    case False => JsonRoundTrip.ValueWord("false", r);
    case True => JsonRoundTrip.ValueWord("true", r);
    case Number(v) => NumeralParses(text, v, r);
    case String(v) =>
      QuotedFirst(text, v);
      QuotedParses(text, v, r);
      assert (text + r)[0] == text[0];
      NotWord(text + r);
  }

  lemma QuotedFirst(text: string, value: string)
    requires IsQuoted(text, value)
    ensures text != "" && text[0] == '\"'
  {
    hide ParseChars, Closed;
  }

  lemma FirstOfTree(t: Tree)
    requires Good(t)
    ensures var s := Write(t); s != "" && 32 < s[0] as int && s[0] != ']' && s[0] != '}'
  {
    hide ParseNumber, ParseChars, Closed;
  }

  /** An item of a gap, a tree and another gap. */
  lemma {:induction false} ItemParses(i: Item, r: string)
    requires GoodItem(i) && Ends(r)
    ensures var s := WriteItem(i) + r;
      ParseValue(Skip(s)).Ok? && ParseValue(Skip(s)).value == Meaning(i.tree) && Skip(ParseValue(Skip(s)).rest) == Skip(r)
    ensures Skip(WriteItem(i) + r) != "" && Skip(WriteItem(i) + r)[0] != ']'
    decreases i, 1
  {
    hide Ends, Skip, ParseValue, Good, Write, Meaning;
    var s, tail := WriteItem(i) + r, i.after + r;
    assert s == i.before + (Write(i.tree) + tail);
    FirstOfTree(i.tree);
    SkipGap(i.before, Write(i.tree) + tail);
    SkipNothing(Write(i.tree) + tail);
    SkipGap(i.after, r);
    EndsIs(r);
    EndsIs(tail);
    TreeParses(i.tree, tail);
  }

  lemma LastItem(s: string, r: string)
    requires ParseValue(Skip(s)).Ok? && Skip(ParseValue(Skip(s)).rest) == "]" + r
    ensures ParseItems(s) == Ok([ParseValue(Skip(s)).value], r)
  {
    hide Skip, ParseValue;
    assert ("]" + r)[1..] == r;
  }

  lemma NextItem(s: string, q: string, items: seq<Json>, r: string)
    requires ParseValue(Skip(s)).Ok? && Skip(ParseValue(Skip(s)).rest) == "," + q && ParseItems(q) == Ok(items, r)
    ensures ParseItems(s) == Ok([ParseValue(Skip(s)).value] + items, r)
  {
    hide Skip, ParseValue;
    assert ("," + q)[1..] == q;
  }

  lemma {:induction false} ItemsParse(items: seq<Item>, r: string)
    requires items != [] && forall i :: 0 <= i < |items| ==> GoodItem(items[i])
    ensures ParseItems(WriteItems(items) + "]" + r) == Ok(Meanings(items), r)
    ensures var s1 := Skip(WriteItems(items) + "]" + r); s1 != "" && s1[0] != ']' && ParseItems(s1) == Ok(Meanings(items), r)
    decreases items, 2
  {
    hide Ends, ParseValue, ParseItems, GoodItem, WriteItem, Meaning, Skip;
    var more := items[1..];
    var r1 := if more == [] then "]" + r else "," + WriteItems(more) + "]" + r;
    var s := WriteItems(items) + "]" + r;
    assert s == WriteItem(items[0]) + r1;
    assert r1 != "" && (r1[0] == ']' || r1[0] == ',');
    SkipNothing(r1);
    EndsIs(r1);
    ItemParses(items[0], r1);
    SkipTwice(s);
    if more == [] {
      assert Meanings(items) == [Meaning(items[0].tree)] + [] == [Meaning(items[0].tree)];
      LastItem(s, r);
      LastItem(Skip(s), r);
    } else {
      ItemsParse(more, r);
      var q := WriteItems(more) + "]" + r;
      assert r1 == "," + q;
      NextItem(s, q, Meanings(more), r);
      NextItem(Skip(s), q, Meanings(more), r);
    }
  }

  lemma SkipTwice(s: string)
    ensures Skip(Skip(s)) == Skip(s)
  {
    var g := Skipped(s);
    SkipNothing(Skip(s));
  }

  lemma {:induction false} PairParses(p: Pair, r: string)
    requires GoodPair(p) && Ends(r)
    ensures var s := WritePair(p) + r;
      ParseMember(s).Ok? && ParseMember(s).value == Member(p.name, Meaning(p.item.tree)) && Skip(ParseMember(s).rest) == Skip(r)
      && Skip(s) != "" && Skip(s)[0] != '}' && ParseMember(Skip(s)) == ParseMember(s)
    decreases p, 2
  {
    hide Ends, Skip, ParseValue, ParseString, GoodItem, WriteItem, Meaning, IsQuoted;
    var s := WritePair(p) + r;
    var s2 := WriteItem(p.item) + r;
    var s1 := ":" + s2;
    var tail := p.quoted + (p.colon + s1);
    assert s == p.before + tail;
    QuotedFirst(p.quoted, p.name);
    SkipGap(p.before, tail);
    SkipNothing(tail);
    SkipTwice(s);
    QuotedParses(p.quoted, p.name, p.colon + s1);
    SkipGap(p.colon, s1);
    SkipNothing(s1);
    assert s1[1..] == s2;
    ItemParses(p.item, r);
  }

  lemma LastMember(s: string, r: string)
    requires ParseMember(s).Ok? && Skip(ParseMember(s).rest) == "}" + r
    ensures ParseMembers(s) == Ok([ParseMember(s).value], r)
  {
    hide Skip, ParseMember;
    assert ("}" + r)[1..] == r;
  }

  lemma NextMember(s: string, q: string, members: seq<Member>, r: string)
    requires ParseMember(s).Ok? && Skip(ParseMember(s).rest) == "," + q && ParseMembers(q) == Ok(members, r)
    ensures ParseMembers(s) == Ok([ParseMember(s).value] + members, r)
  {
    hide Skip, ParseMember;
    assert ("," + q)[1..] == q;
  }

  lemma {:induction false} PairsParse(pairs: seq<Pair>, r: string)
    requires pairs != [] && forall i :: 0 <= i < |pairs| ==> GoodPair(pairs[i])
    ensures ParseMembers(WritePairs(pairs) + "}" + r) == Ok(Members(pairs), r)
    ensures var s1 := Skip(WritePairs(pairs) + "}" + r); s1 != "" && s1[0] != '}' && ParseMembers(s1) == Ok(Members(pairs), r)
    decreases pairs, 3
  {
    hide Ends, ParseMember, ParseMembers, GoodPair, WritePair, Meaning, Skip;
    var more := pairs[1..];
    var r1 := if more == [] then "}" + r else "," + WritePairs(more) + "}" + r;
    var s := WritePairs(pairs) + "}" + r;
    assert s == WritePair(pairs[0]) + r1;
    assert r1 != "" && (r1[0] == '}' || r1[0] == ',');
    SkipNothing(r1);
    EndsIs(r1);
    PairParses(pairs[0], r1);
    if more == [] {
      assert Members(pairs) == [Member(pairs[0].name, Meaning(pairs[0].item.tree))] + [] == [Member(pairs[0].name, Meaning(pairs[0].item.tree))];
      LastMember(s, r);
      LastMember(Skip(s), r);
    } else {
      PairsParse(more, r);
      var q := WritePairs(more) + "}" + r;
      assert r1 == "," + q;
      NextMember(s, q, Members(more), r);
      NextMember(Skip(s), q, Members(more), r);
    }
  }

  /** Every text of the grammar is parsed, to the value of its tree. */
  lemma {:induction false} TreeParses(t: Tree, r: string)
    requires Good(t) && Ends(r)
    ensures ParseValue(Write(t) + r) == Ok(Meaning(t), r)
    decreases t, 0
  {
    hide Ends, GoodItem, GoodPair, WriteItems, WritePairs, Meanings, Members, Skip, ParseValue;
    var s := Write(t) + r;
    match t
    case Leaf(text, value) => LeafParses(text, value, r);
    case List(gap, items) =>
      if items == [] {
        assert s == "[" + (gap + ("]" + r));
        SkipGap(gap, "]" + r);
        SkipNothing("]" + r);
        EmptyBrackets(gap + ("]" + r), r);
        NoMeanings();
      } else {
        assert s == "[" + (WriteItems(items) + "]" + r);
        ItemsParse(items, r);
        Brackets(WriteItems(items) + "]" + r, Meanings(items), r);
      }
    case Map(gap, pairs) =>
      if pairs == [] {
        assert s == "{" + (gap + ("}" + r));
        SkipGap(gap, "}" + r);
        SkipNothing("}" + r);
        EmptyBraces(gap + ("}" + r), r);
        NoMeanings();
      } else {
        assert s == "{" + (WritePairs(pairs) + "}" + r);
        PairsParse(pairs, r);
        Braces(WritePairs(pairs) + "}" + r, Members(pairs), r);
      }
  }

  lemma NoMeanings()
    ensures Meanings([]) == [] && Members([]) == []
  {}

  lemma Brackets(s: string, items: seq<Json>, r: string)
    requires Peek(Skip(s)) != ']' && ParseItems(Skip(s)) == Ok(items, r)
    ensures ParseValue("[" + s) == Ok(Array(items), r)
  {
    hide ParseItems, Skip;
    NotWord("[" + s);
    assert ("[" + s)[1..] == s;
  }

  lemma EmptyBrackets(s: string, r: string)
    requires Skip(s) == "]" + r
    ensures ParseValue("[" + s) == Ok(Array([]), r)
  {
    hide Skip;
    NotWord("[" + s);
    assert ("[" + s)[1..] == s && ("]" + r)[1..] == r;
  }

  lemma Braces(s: string, members: seq<Member>, r: string)
    requires Peek(Skip(s)) != '}' && ParseMembers(Skip(s)) == Ok(members, r)
    ensures ParseValue("{" + s) == Ok(Object(members), r)
  {
    hide ParseMembers, Skip;
    NotWord("{" + s);
    assert ("{" + s)[1..] == s;
  }

  lemma EmptyBraces(s: string, r: string)
    requires Skip(s) == "}" + r
    ensures ParseValue("{" + s) == Ok(Object([]), r)
  {
    hide Skip;
    NotWord("{" + s);
    assert ("{" + s)[1..] == s && ("}" + r)[1..] == r;
  }

  // ----- and no others -----

  /** The tree of an accepted text. */
  lemma {:induction false} TreeOf(s: string) returns (t: Tree)
    requires ParseValue(s).Ok? && Ends(ParseValue(s).rest)
    requires s != "" && s[0] == '\"' ==> Closed(s[1..])
    ensures var v := ParseValue(s); Good(t) && s == Write(t) + v.rest && Meaning(t) == v.value
    decreases |s|, 5
  {
    hide ParseValue, ParseString, ParseNumber, Skip, Ends, StartsWith, Good, Write, Meaning, Closed;
    FirstOfValue(s);
    if StartsWith(s, "null") || StartsWith(s, "false") || StartsWith(s, "true") {
      t := WordOf(s);
    } else if s[0] == '\"' {
      t := TextOf(s);
    } else if s[0] == '-' || IsDigit(s[0]) {
      t := NumberOf(s);
    } else if s[0] == '[' {
      t := ListOf(s);
    } else {
      t := MapOf(s);
    }
  }

  lemma WordOf(s: string) returns (t: Tree)
    requires StartsWith(s, "null") || StartsWith(s, "false") || StartsWith(s, "true")
    ensures var v := ParseValue(s); v.Ok? && Good(t) && s == Write(t) + v.rest && Meaning(t) == v.value
  {
    t := Leaf(if StartsWith(s, "null") then "null" else if StartsWith(s, "false") then "false" else "true", ParseValue(s).value);
  }

  lemma TextOf(s: string) returns (t: Tree)
    requires s != "" && s[0] == '\"' && ParseValue(s).Ok? && Closed(s[1..])
    ensures var v := ParseValue(s); Good(t) && s == Write(t) + v.rest && Meaning(t) == v.value
  {
    hide ParseString, Closed, IsQuoted;
    NotWord(s);
    var q := QuotedOf(s);
    t := Leaf(q, ParseValue(s).value);
  }

  lemma NumberOf(s: string) returns (t: Tree)
    requires s != "" && (s[0] == '-' || IsDigit(s[0])) && ParseValue(s).Ok? && Ends(ParseValue(s).rest)
    ensures var v := ParseValue(s); Good(t) && s == Write(t) + v.rest && Meaning(t) == v.value
  {
    hide ParseNumber, Ends, IsNumeral;
    NotWord(s);
    NumeralOf(s);
    t := Leaf(s[..|s| - |ParseValue(s).rest|], ParseValue(s).value);
  }

  lemma {:induction false} ListOf(s: string) returns (t: Tree)
    requires s != "" && s[0] == '[' && ParseValue(s).Ok?
    ensures var v := ParseValue(s); Good(t) && s == Write(t) + v.rest && Meaning(t) == v.value
    decreases |s|, 4
  {
    hide ParseItems, Skip, GoodItem, WriteItems, Meanings;
    NotWord(s);
    var s1 := Skip(s[1..]);
    if Peek(s1) == ']' {
      var gap := Skipped(s[1..]);
      t := List(gap, []);
      NoMeanings();
      assert s1 == "]" + s1[1..];
      assert s == ("[" + gap + "]") + s1[1..];
    } else {
      SameItems(s[1..]);
      var items := ItemsOf(s[1..]);
      t := List("", items);
      assert s == ("[" + WriteItems(items) + "]") + ParseValue(s).rest;
    }
  }

  lemma {:induction false} MapOf(s: string) returns (t: Tree)
    requires s != "" && s[0] == '{' && ParseValue(s).Ok?
    ensures var v := ParseValue(s); Good(t) && s == Write(t) + v.rest && Meaning(t) == v.value
    decreases |s|, 4
  {
    hide ParseMembers, Skip, GoodPair, WritePairs, Members;
    NotWord(s);
    var s1 := Skip(s[1..]);
    if Peek(s1) == '}' {
      var gap := Skipped(s[1..]);
      t := Map(gap, []);
      NoMeanings();
      assert s1 == "}" + s1[1..];
      assert s == ("{" + gap + "}") + s1[1..];
    } else {
      SameMembers(s[1..]);
      var pairs := PairsOf(s[1..]);
      t := Map("", pairs);
      assert s == ("{" + WritePairs(pairs) + "}") + ParseValue(s).rest;
    }
  }

  lemma SameItems(s: string)
    ensures ParseItems(Skip(s)) == ParseItems(s)
  {
    hide Skip;
    SkipTwice(s);
  }

  lemma SameMembers(s: string)
    ensures ParseMembers(Skip(s)) == ParseMembers(s)
  {
    hide Skip, ParseString, ParseValue;
    SkipTwice(s);
    assert ParseMember(Skip(s)) == ParseMember(s);
  }

  /** A literal without its closing quote takes all of the text. */
  lemma {:induction false} UnclosedEnds(s: string)
    requires !Closed(s) && ParseChars(s).Ok?
    ensures ParseChars(s).rest == ""
    decreases |s|
  {
    hide Unescape;
    if s == "" || s[0] == '\"' {
    } else if s[0] != '\\' {
      UnclosedEnds(s[1..]);
    } else {
      UnclosedEnds(s[1 + Unescape(s[1..]).1..]);
    }
  }

  /** A value that something follows is no unclosed literal. */
  lemma FollowedCloses(s: string)
    requires ParseValue(s).Ok? && Skip(ParseValue(s).rest) != "" && s != "" && s[0] == '\"'
    ensures Closed(s[1..])
  {
    hide ParseNumber, ParseItems, ParseMembers, Closed, ParseChars;
    NotWord(s);
    if !Closed(s[1..]) {
      UnclosedEnds(s[1..]);
    }
  }

  lemma {:induction false} ItemOf(s: string) returns (i: Item)
    requires ParseValue(Skip(s)).Ok? && Ends(ParseValue(Skip(s)).rest) && Skip(ParseValue(Skip(s)).rest) != ""
    ensures var v := ParseValue(Skip(s)); GoodItem(i) && s == WriteItem(i) + Skip(v.rest) && Meaning(i.tree) == v.value
    decreases |s|, 6
  {
    hide Skip, Ends, ParseValue, Good, Write, Meaning;
    var v := ParseValue(Skip(s));
    var before := Skipped(s);
    var after := Skipped(v.rest);
    if Skip(s) != "" && Skip(s)[0] == '\"' {
      FollowedCloses(Skip(s));
    }
    var t := TreeOf(Skip(s));
    i := Item(before, t, after);
    assert s == before + (Write(t) + (after + Skip(v.rest)));
  }

  lemma {:induction false} ItemsOf(s: string) returns (items: seq<Item>)
    requires ParseItems(s).Ok?
    ensures var r := ParseItems(s);
      && items != [] && (forall i :: 0 <= i < |items| ==> GoodItem(items[i]))
      && s == WriteItems(items) + "]" + r.rest && Meanings(items) == r.value
    decreases |s|, 7
  {
    hide Skip, Ends, ParseValue, GoodItem, WriteItem, Meaning;
    var s1 := Skip(ParseValue(Skip(s)).rest);
    EndsIs(ParseValue(Skip(s)).rest);
    var item := ItemOf(s);
    NoMeanings();
    assert s1 == [s1[0]] + s1[1..];
    if s1[0] == ',' {
      var more := ItemsOf(s1[1..]);
      items := [item] + more;
      assert items[1..] == more;
      assert s == WriteItem(item) + "," + WriteItems(more) + "]" + ParseItems(s).rest;
    } else {
      items := [item];
      assert Meanings(items) == [Meaning(item.tree)] + [];
    }
  }

  lemma {:induction false} PairOf(s: string) returns (p: Pair)
    requires ParseMember(s).Ok? && Ends(ParseMember(s).rest) && Skip(ParseMember(s).rest) != ""
    ensures var r := ParseMember(s);
      GoodPair(p) && s == WritePair(p) + Skip(r.rest) && Member(p.name, Meaning(p.item.tree)) == r.value
    decreases |s|, 7
  {
    hide Skip, Ends, ParseValue, ParseChars, Closed, GoodItem, WriteItem, Meaning, IsQuoted;
    var before := Skipped(s);
    var q := ParseString(Skip(s));
    var colon := Skipped(q.rest);
    var s1 := Skip(q.rest);
    if !Closed(Skip(s)[1..]) {
      UnclosedEnds(Skip(s)[1..]);
      SkipNothing("");
    }
    var quoted := QuotedOf(Skip(s));
    assert s1 == ":" + s1[1..];
    var item := ItemOf(s1[1..]);
    p := Pair(before, quoted, q.value, colon, item);
    assert s == before + (quoted + (colon + (":" + (WriteItem(item) + Skip(ParseMember(s).rest)))));
  }

  lemma {:induction false} PairsOf(s: string) returns (pairs: seq<Pair>)
    requires ParseMembers(s).Ok?
    ensures var r := ParseMembers(s);
      && pairs != [] && (forall i :: 0 <= i < |pairs| ==> GoodPair(pairs[i]))
      && s == WritePairs(pairs) + "}" + r.rest && Members(pairs) == r.value
    decreases |s|, 8
  {
    hide Skip, Ends, ParseMember, GoodPair, WritePair, Meaning;
    var s1 := Skip(ParseMember(s).rest);
    EndsIs(ParseMember(s).rest);
    var pair := PairOf(s);
    NoMeanings();
    assert s1 == [s1[0]] + s1[1..];
    if s1[0] == ',' {
      var more := PairsOf(s1[1..]);
      pairs := [pair] + more;
      assert pairs[1..] == more;
      assert s == WritePair(pair) + "," + WritePairs(more) + "}" + ParseMembers(s).rest;
    } else {
      pairs := [pair];
      assert Members(pairs) == [Member(pair.name, Meaning(pair.item.tree))] + [];
    }
  }

  // ----- the whole text -----

  /** A text of the grammar for a value, with gaps around it. */
  ghost predicate IsText(s: string, value: Json) {
    exists before, t, after :: IsGap(before) && Good(t) && IsGap(after) && s == before + Write(t) + after && Meaning(t) == value
  }

  /** The parser takes a whole text, with whitespace behind the value, exactly for the texts of the
      grammar and for string literals that the end of the text cuts off. */
  lemma AcceptsExactly(s: string, value: Json)
    ensures var v := ParseValue(Skip(s));
      (v.Ok? && v.value == value && Skip(v.rest) == "")
      <==> (IsText(s, value) || (v.Ok? && v.value == value && Skip(s)[0] == '\"' && !Closed(Skip(s)[1..])))
  {
    hide ParseValue, Skip, Good, Write, Meaning, Ends, Closed, IsGap, IsText;
    var v := ParseValue(Skip(s));
    if IsText(s, value) {
      TextAccepted(s, value);
    }
    if v.Ok? && v.value == value && Skip(v.rest) == "" {
      FirstOfValue(Skip(s));
      if !(Skip(s)[0] == '\"' && !Closed(Skip(s)[1..])) {
        AcceptedText(s);
      }
    }
    if v.Ok? {
      FirstOfValue(Skip(s));
      if Skip(s)[0] == '\"' && !Closed(Skip(s)[1..]) {
        UnclosedValue(Skip(s));
        SkipNothing("");
      }
    }
  }

  lemma UnclosedValue(s: string)
    requires s != "" && s[0] == '\"' && ParseValue(s).Ok? && !Closed(s[1..])
    ensures ParseValue(s).rest == ""
  {
    hide ParseNumber, ParseItems, ParseMembers, Closed, ParseChars;
    NotWord(s);
    UnclosedEnds(s[1..]);
  }

  lemma TextAccepted(s: string, value: Json)
    requires IsText(s, value)
    ensures var v := ParseValue(Skip(s)); v.Ok? && v.value == value && Skip(v.rest) == ""
  {
    hide ParseValue, Skip, Good, Write, Meaning, Ends;
    var before, t, after :| IsGap(before) && Good(t) && IsGap(after) && s == before + Write(t) + after && Meaning(t) == value;
    FirstOfTree(t);
    assert s == before + (Write(t) + after);
    SkipGap(before, Write(t) + after);
    SkipNothing(Write(t) + after);
    SkipGap(after, "");
    SkipNothing("");
    assert after + "" == after;
    EndsIs(after);
    TreeParses(t, after);
  }

  lemma AcceptedText(s: string)
    requires ParseValue(Skip(s)).Ok? && Skip(ParseValue(Skip(s)).rest) == ""
    requires Skip(s) != "" && Skip(s)[0] == '\"' ==> Closed(Skip(s)[1..])
    ensures IsText(s, ParseValue(Skip(s)).value)
  {
    hide ParseValue, Skip, Good, Write, Meaning, Ends, IsGap, Closed;
    var v := ParseValue(Skip(s));
    var before := Skipped(s);
    var after := Skipped(v.rest);
    EndsIs(v.rest);
    var t := TreeOf(Skip(s));
    assert s == before + Write(t) + after;
  }

  lemma QuotedOf(s: string) returns (q: string)
    requires s != "" && s[0] == '\"' && ParseString(s).Ok? && Closed(s[1..])
    ensures IsQuoted(q, ParseString(s).value) && s == q + ParseString(s).rest
  {
    hide ParseChars, Closed;
    var r := ParseString(s).rest;
    CharsPrefix(s[1..]);
    q := s[..|s| - |r|];
    assert q[1..] == s[1..][..|s| - 1 - |r|];
  }

  lemma NumeralOf(s: string)
    requires s != "" && (s[0] == '-' || IsDigit(s[0])) && Ends(ParseNumber(s).1)
    ensures var (v, r) := ParseNumber(s); IsNumeral(s[..|s| - |r|], v) && s == s[..|s| - |r|] + r
  {
    hide ParseNumber, Ends;
    var r := ParseNumber(s).1;
    EndsStop(r);
    NothingStops();
    NumberLocal(s, "");
    assert s[..|s| - |r|] + "" == s[..|s| - |r|];
  }
}
