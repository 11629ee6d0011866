/** The loops of cJSON.c, proved against the functions of Json and JsonParse.  A `const char *`
    that walks over a text is the text that is left. */
module JsonCode {
  import opened Json
  import opened JsonParse

  // ----- parsing -----

  method SkipSpace(text: string) returns (s: string)
    ensures s == Skip(text)
  {
    s := text;
    while s != "" && s[0] as int <= 32
      invariant Skip(s) == Skip(text)
      decreases |s|
    {
      s := s[1..];
    }
  }

  method ScanDigits(acc: nat, text: string) returns (n: nat, s: string)
    ensures (n, s) == ReadDigits(acc, text)
  {
    n, s := acc, text;
    while IsDigit(Peek(s))
      invariant ReadDigits(n, s) == ReadDigits(acc, text)
      decreases |s|
    {
      n, s := n * 10 + (s[0] as int - '0' as int), s[1..];
    }
  }

  /** The digits of parse_number; its do-while loops are entered only in front of a digit. */
  method ScanMantissa(text: string) returns (n: nat, scale: int, num: string)
    ensures Mantissa(n, scale, num) == ReadMantissa(text)
  {
    hide ReadDigits;
    num := text;
    if Peek(num) == '0' {
      num := num[1..];
    }
    n, scale := 0, 0;
    if '1' <= Peek(num) <= '9' {
      n, num := ScanDigits(n, num);
    }
    if Peek(num) == '.' && 1 < |num| && IsDigit(num[1]) {
      var start := |num| - 1;
      n, num := ScanDigits(n, num[1..]);
      scale := |num| - start;
    }
  }

  /** The exponent of parse_number. */
  method ScanExponent(text: string) returns (subscale: nat, minus: bool, num: string)
    ensures (Signed(minus, subscale), num) == ReadExponent(text)
  {
    hide ReadDigits;
    num, subscale, minus := text, 0, false;
    if Peek(num) == 'e' || Peek(num) == 'E' {
      num := num[1..];
      if Peek(num) == '+' {
        num := num[1..];
      } else if Peek(num) == '-' {
        minus := true;
        num := num[1..];
      }
      subscale, num := ScanDigits(0, num);
    }
  }

  /** parse_number. */
  method ScanNumber(text: string) returns (value: real, rest: string)
    ensures (value, rest) == ParseNumber(text)
  {
    hide ReadMantissa, ReadExponent, Pow10, Signed;
    var num := text;
    var negative := false;
    if Peek(num) == '-' {
      negative := true;
      num := num[1..];
    }
    var n, scale, subscale, minus;
    ghost var m := ReadMantissa(num);
    n, scale, num := ScanMantissa(num);
    assert n == m.digits && scale == m.scale && num == m.rest;
    subscale, minus, rest := ScanExponent(num);
    assert ReadExponent(m.rest).0 == Signed(minus, subscale) && ReadExponent(m.rest).1 == rest;
    value := n as real * Pow10(scale + Signed(minus, subscale));
    value := if negative then -value else value;
    assert rest == ParseNumber(text).1 && value == ParseNumber(text).0;
  }

  method ScanString(text: string) returns (r: Parsed<string>)
    ensures r == ParseString(text)
  {
    hide Unescape;
    if Peek(text) != '\"' {
      return Fail;
    }
    var s, out := text[1..], "";
    PrependTwice("", "", ParseChars(s));
    while Peek(s) != '\"' && s != ""
      invariant Prepend(out, ParseChars(s)) == ParseChars(text[1..])
      decreases |s|
    {
      if s[0] != '\\' {
        PrependTwice(out, [s[0]], ParseChars(s[1..]));
        out, s := out + [s[0]], s[1..];
      } else {
        var (c, used) := Unescape(s[1..]);
        if |s| < 1 + used {
          return Overrun;
        }
        PrependTwice(out, c, ParseChars(s[1 + used..]));
        out, s := out + c, s[1 + used..];
      }
    }
    assert out + "" == out;
    r := Ok(out, if s == "" then "" else s[1..]);
  }

  lemma PrependTwice(a: string, b: string, r: Parsed<string>)
    ensures Prepend(a, Prepend(b, r)) == Prepend(a + b, r)
    ensures Prepend("", r) == r
  {
    if r.Ok? {
      assert "" + r.value == r.value;
      assert a + (b + r.value) == a + b + r.value;
    }
  }

  // ----- the buffer of parse_string -----

  /** The first loop of parse_string. */
  method CountString(text: string) returns (len: nat)
    ensures len == CountedLength(text)
  {
    len := 0;
    var ptr := text;
    while ptr != "" && ptr[0] != '\"'
      invariant len + CountedLength(ptr) == CountedLength(text)
      decreases |ptr|
    {
      len := len + 1;
      ptr := if ptr[0] == '\\' && 2 <= |ptr| then ptr[2..] else ptr[1..];
    }
  }

  lemma CountedPlain(s: string)
    requires s != "" && 0 <= HexValue(s[0])
    ensures CountedLength(s) == 1 + CountedLength(s[1..])
  {}

  lemma CountedHex(s: string)
    requires IsHex(s)
    ensures 4 <= |s| && CountedLength(s) == 4 + CountedLength(s[4..])
  {
    hide CountedLength, HexValue;
    CountedPlain(s);
    CountedPlain(s[1..]);
    CountedPlain(s[2..]);
    CountedPlain(s[3..]);
    assert s[1..][1..] == s[2..] && s[2..][1..] == s[3..] && s[3..][1..] == s[4..];
  }

  /** A \u with its digits. */
  lemma CountedUnicode(s: string)
    requires 2 <= |s| && s[0] == '\\' && s[1] == 'u' && EscapesComplete(s)
    ensures 6 <= |s| && EscapesComplete(s[6..]) && CountedLength(s) == 5 + CountedLength(s[6..])
  {
    hide IsHex;
    CountedHex(s[2..]);
    assert s[2..][4..] == s[6..];
  }

  /** What a \u takes and gives. */
  lemma UnicodeTakes(s: string)
    requires s != "" && s[0] == 'u'
    ensures var (out, used) := Unescape(s);
      (used == 5 && |out| <= 3) || (used == 11 && |out| <= 4 && 7 <= |s| && s[5] == '\\' && s[6] == 'u')
  {
    hide Hex4;
  }

  /** One escape: what it takes of the text, and that it writes no more than was counted for it. */
  lemma EscapeFits(s: string)
    requires s != "" && s[0] == '\\' && EscapesComplete(s)
    ensures var (out, used) := Unescape(s[1..]);
      1 + used <= |s| && EscapesComplete(s[1 + used..])
      && |out| + CountedLength(s[1 + used..]) <= CountedLength(s)
  {
    assert 2 <= |s| && s[1..][0] == s[1];
    if s[1] == 'u' {
      UnicodeFits(s);
    } else {
      PlainTakes(s[1..]);
    }
  }

  lemma PlainTakes(s: string)
    requires s != "" && s[0] != 'u'
    ensures |Unescape(s).0| == 1 && Unescape(s).1 == 1
  {}

  lemma UnicodeFits(s: string)
    requires 2 <= |s| && s[0] == '\\' && s[1] == 'u' && EscapesComplete(s)
    ensures var (out, used) := Unescape(s[1..]);
      1 + used <= |s| && EscapesComplete(s[1 + used..])
      && |out| + CountedLength(s[1 + used..]) <= CountedLength(s)
  {
    hide Unescape, EscapesComplete, CountedLength;
    UnicodeTakes(s[1..]);
    CountedUnicode(s);
    var (out, used) := Unescape(s[1..]);
    if used == 11 {
      var t := s[6..];
      assert t[0] == s[1..][5] && t[1] == s[1..][6];
      CountedUnicode(t);
      assert t[6..] == s[12..];
    }
  }

  /** When every escape is complete, the string that parse_string makes has no more characters than
      its first loop has counted, so it fits the buffer with its terminating NUL. */
  lemma {:induction false} ParsedFits(s: string)
    requires EscapesComplete(s)
    ensures ParseChars(s).Ok? && |ParseChars(s).value| <= CountedLength(s)
    decreases |s|
  {
    hide Unescape;
    if s == "" || s[0] == '\"' {
    } else if s[0] != '\\' {
      ParsedFits(s[1..]);
    } else {
      EscapeFits(s);
      var (out, used) := Unescape(s[1..]);
      ParsedFits(s[1 + used..]);
    }
  }

  /** The second loop of parse_string, into the buffer that the first one has sized. */
  method FillString(text: string) returns (value: string, rest: string)
    requires EscapesComplete(text)
    ensures ParseChars(text) == Ok(value, rest)
  {
    hide Unescape, EscapesComplete, CountedLength, ParseChars;
    var len := CountString(text);
    var out := new char[len + 1];
    var ptr, ptr2: nat := text, 0;
    assert out[..0] == "";
    PrependTwice("", "", ParseChars(text));
    while ptr != "" && ptr[0] != '\"'
      invariant EscapesComplete(ptr) && ptr2 + CountedLength(ptr) <= len
      invariant Prepend(out[..ptr2], ParseChars(ptr)) == ParseChars(text)
      decreases |ptr|
    {
      CharStep(ptr);
      ghost var before := out[..ptr2];
      if ptr[0] != '\\' {
        PrependTwice(before, [ptr[0]], ParseChars(ptr[1..]));
        ptr2 := Put(out, ptr2, [ptr[0]]);
        ptr := ptr[1..];
      } else {
        EscapeFits(ptr);
        var (c, used) := Unescape(ptr[1..]);
        PrependTwice(before, c, ParseChars(ptr[1 + used..]));
        ptr2 := Put(out, ptr2, c);
        ptr := ptr[1 + used..];
      }
    }
    StringEnds(ptr);
    value := out[..ptr2];
    assert value + "" == value;
    rest := if ptr == "" then "" else ptr[1..];
    ptr2 := Put(out, ptr2, "\0");
  }

  lemma CharStep(s: string)
    requires s != "" && s[0] != '\"' && EscapesComplete(s)
    ensures s[0] != '\\' ==>
      EscapesComplete(s[1..]) && CountedLength(s) == 1 + CountedLength(s[1..]) && ParseChars(s) == Prepend([s[0]], ParseChars(s[1..]))
    ensures s[0] == '\\' ==>
      var (c, used) := Unescape(s[1..]);
      1 + used <= |s| ==> ParseChars(s) == Prepend(c, ParseChars(s[1 + used..]))
  {
    hide Unescape;
  }

  lemma StringEnds(s: string)
    requires s == "" || s[0] == '\"'
    ensures ParseChars(s) == Ok("", if s == "" then "" else s[1..]) && CountedLength(s) == 0
  {}

  method ScanValue(s: string) returns (r: Parsed<Json>)
    ensures r == ParseValue(s)
    decreases |s|, 2
  {
    if StartsWith(s, "null") {
      return Ok(Null, s[4..]);
    }
    if StartsWith(s, "false") {
      return Ok(False, s[5..]);
    }
    if StartsWith(s, "true") {
      return Ok(True, s[4..]);
    }
    if Peek(s) == '\"' {
      var text := ScanString(s);
      return match text case Ok(value, rest) => Ok(String(value), rest) case Fail => Fail case Overrun => Overrun;
    }
    if Peek(s) == '-' || IsDigit(Peek(s)) {
      var value, rest := ScanNumber(s);
      return Ok(Number(value), rest);
    }
    if Peek(s) == '[' {
      r := ScanArray(s);
      return;
    }
    if Peek(s) == '{' {
      r := ScanObject(s);
      return;
    }
    r := Fail;
  }

  /** What the loop of parse_array still has to do after an item. */
  function MoreItems(s: string): Parsed<seq<Json>> {
    if Peek(s) == ',' then ParseItems(s[1..]) else if Peek(s) == ']' then Ok([], s[1..]) else Fail
  }

  function Joined<T>(items: seq<T>, r: Parsed<seq<T>>): Parsed<seq<T>> {
    match r case Ok(more, rest) => Ok(items + more, rest) case Fail => Fail case Overrun => Overrun
  }

  lemma JoinedTwice<T>(a: seq<T>, b: seq<T>, r: Parsed<seq<T>>)
    ensures Joined(a, Joined(b, r)) == Joined(a + b, r)
    ensures Joined([], r) == r
  {
    if r.Ok? {
      assert a + (b + r.value) == a + b + r.value && [] + r.value == r.value;
    }
  }

  lemma ItemsUnfold(s: string)
    ensures ParseItems(s) == match ParseValue(Skip(s)) case Ok(item, rest) => Joined([item], MoreItems(Skip(rest))) case Fail => Fail case Overrun => Overrun
  {
    hide ParseValue, Skip;
    match ParseValue(Skip(s))
    case Ok(item, rest) => assert [item] + [] == [item];
    case Fail =>
    case Overrun =>
  }

  method ScanArray(text: string) returns (r: Parsed<Json>)
    requires Peek(text) == '['
    ensures r == ParseValue(text)
    decreases |text|, 0
  {
    hide ParseItems;
    ArrayUnfold(text);
    var s := SkipSpace(text[1..]);
    if Peek(s) == ']' {
      return Ok(Array([]), s[1..]);
    }
    ghost var whole := ParseItems(s);
    hide ParseValue;
    ItemsUnfold(s);
    s := SkipSpace(s);
    var first := ScanValue(s);
    if first.Fail? {
      return Fail;
    }
    if first.Overrun? {
      return Overrun;
    }
    var items := [first.value];
    s := SkipSpace(first.rest);
    while Peek(s) == ','
      invariant |s| < |text| && whole == Joined(items, MoreItems(s))
      decreases |s|
    {
      ItemsUnfold(s[1..]);
      var lead := SkipSpace(s[1..]);
      var item := ScanValue(lead);
      if item.Fail? {
        return Fail;
      }
      if item.Overrun? {
        return Overrun;
      }
      JoinedTwice(items, [item.value], MoreItems(Skip(item.rest)));
      items := items + [item.value];
      s := SkipSpace(item.rest);
    }
    assert items + [] == items;
    if Peek(s) == ']' {
      return Ok(Array(items), s[1..]);
    }
    r := Fail;
  }

  lemma ArrayUnfold(text: string)
    requires Peek(text) == '['
    ensures ParseValue(text) ==
      var s := Skip(text[1..]);
      if Peek(s) == ']' then Ok(Array([]), s[1..])
      else match ParseItems(s) case Ok(items, rest) => Ok(Array(items), rest) case Fail => Fail case Overrun => Overrun
  {
    hide ParseItems, Skip;
  }

  lemma ObjectUnfold(text: string)
    requires Peek(text) == '{'
    ensures ParseValue(text) ==
      var s := Skip(text[1..]);
      if Peek(s) == '}' then Ok(Object([]), s[1..])
      else match ParseMembers(s) case Ok(members, rest) => Ok(Object(members), rest) case Fail => Fail case Overrun => Overrun
  {
    hide ParseMembers, Skip;
  }

  function MoreMembers(s: string): Parsed<seq<Member>> {
    if Peek(s) == ',' then ParseMembers(s[1..]) else if Peek(s) == '}' then Ok([], s[1..]) else Fail
  }

  lemma MembersUnfold(s: string)
    ensures ParseMembers(s) == match ParseMember(s) case Ok(m, rest) => Joined([m], MoreMembers(Skip(rest))) case Fail => Fail case Overrun => Overrun
  {
    hide ParseMember, Skip;
    match ParseMember(s)
    case Ok(m, rest) => assert [m] + [] == [m];
    case Fail =>
    case Overrun =>
  }

  /** One name and value, the part parse_object repeats before and inside its loop. */
  method ScanMember(text: string) returns (r: Parsed<Member>)
    ensures r == ParseMember(text)
    decreases |text|, 1
  {
    hide ParseValue, ParseString;
    var s := SkipSpace(text);
    var name := ScanString(s);
    if name.Fail? {
      return Fail;
    }
    if name.Overrun? {
      return Overrun;
    }
    s := SkipSpace(name.rest);
    if Peek(s) != ':' {
      return Fail;
    }
    s := SkipSpace(s[1..]);
    var value := ScanValue(s);
    r := match value case Ok(v, rest) => Ok(Member(name.value, v), rest) case Fail => Fail case Overrun => Overrun;
  }

  method ScanObject(text: string) returns (r: Parsed<Json>)
    requires Peek(text) == '{'
    ensures r == ParseValue(text)
    decreases |text|, 0
  {
    hide ParseMembers, ParseMember;
    ObjectUnfold(text);
    var s := SkipSpace(text[1..]);
    if Peek(s) == '}' {
      return Ok(Object([]), s[1..]);
    }
    ghost var whole := ParseMembers(s);
    hide ParseValue;
    MembersUnfold(s);
    var first := ScanMember(s);
    if first.Fail? {
      return Fail;
    }
    if first.Overrun? {
      return Overrun;
    }
    var members := [first.value];
    s := SkipSpace(first.rest);
    while Peek(s) == ','
      invariant |s| < |text| && whole == Joined(members, MoreMembers(s))
      decreases |s|
    {
      MembersUnfold(s[1..]);
      var member := ScanMember(s[1..]);
      if member.Fail? {
        return Fail;
      }
      if member.Overrun? {
        return Overrun;
      }
      JoinedTwice(members, [member.value], MoreMembers(Skip(member.rest)));
      members := members + [member.value];
      s := SkipSpace(member.rest);
    }
    assert members + [] == members;
    if Peek(s) == '}' {
      return Ok(Object(members), s[1..]);
    }
    r := Fail;
  }

  // ----- printing -----

  /** strcpy and an advance of the pointer; the text must fit. */
  method Put(out: array<char>, ptr: nat, s: string) returns (next: nat)
    requires ptr + |s| <= out.Length
    modifies out
    ensures next == ptr + |s|
    ensures out[..next] == old(out[..ptr]) + s
  {
    for i := 0 to |s|
      invariant out[..ptr + i] == old(out[..ptr]) + s[..i]
    {
      out[ptr + i] := s[i];
      assert s[..i + 1] == s[..i] + [s[i]];
    }
    next := ptr + |s|;
    assert s[..|s|] == s;
  }

  /** print_string_ptr: counts the escaped length, allocates that and three more, and writes the
      literal and its NUL, which fill the buffer exactly. */
  method WriteString(s: string) returns (out: array<char>)
    requires IsByteString(s)
    ensures fresh(out) && out.Length == |PrintString(s)| + 1
    ensures out[..out.Length - 1] == PrintString(s) && out[out.Length - 1] == '\0'
  {
    hide EscapeChar;
    var len := 0;
    for i := 0 to |s|
      invariant len + |Escape(s[i..])| == |Escape(s)|
    {
      EscapedLength(s[i]);
      assert s[i..][1..] == s[i + 1..];
      len := len + 1;
      if IsShort(s[i]) {
        len := len + 1;
      } else if (s[i] as int) < 32 {
        len := len + 5;
      }
    }
    out := new char[len + 3];
    var ptr: nat := Put(out, 0, "\"");
    for i := 0 to |s|
      invariant ptr + |Escape(s[i..])| == |Escape(s)| + 1 <= out.Length
      invariant out[..ptr] + Escape(s[i..]) == "\"" + Escape(s)
    {
      assert s[i..][1..] == s[i + 1..];
      assert out[..ptr] + (EscapeChar(s[i]) + Escape(s[i + 1..])) == out[..ptr] + EscapeChar(s[i]) + Escape(s[i + 1..]);
      ptr := Put(out, ptr, EscapeChar(s[i]));
    }
    assert out[..ptr] + "" == out[..ptr];
    ptr := Put(out, ptr, "\"");
    ptr := Put(out, ptr, "\0");
    assert out[..ptr - 1] == PrintString(s);
  }

  /** The bytes that strchr finds in "\"\\\b\f\n\r\t". */
  predicate IsShort(c: char) {
    c == '\"' || c == '\\' || c as int == 8 || c as int == 12 || c as int == 10 || c as int == 13 || c as int == 9
  }

  lemma EscapedLength(c: char)
    requires 1 <= c as int < 256
    ensures |EscapeChar(c)| == if IsShort(c) then 2 else if (c as int) < 32 then 6 else 1
  {}

  /** print_value: the text of a value. */
  method WriteValue(t: Json, depth: nat, fmt: bool) returns (text: string)
    requires WellFormed(t)
    ensures text == Print(t, depth, fmt)
    decreases t, 0
  {
    match t
    case Null => text := "null";
    case False => text := "false";
    case True => text := "true";
    case Number(value) => text := PrintInt(value.Floor);
    case String(s) =>
      var out := WriteString(s);
      text := out[..out.Length - 1];
    case Array(items) => text := WriteArray(items, depth, fmt);
    case Object(members) => text := WriteObject(members, depth, fmt);
  }

  /** print_array: prints the entries, allocates the length it has added up, and joins them there. */
  method WriteArray(items: seq<Json>, depth: nat, fmt: bool) returns (text: string)
    requires WellFormed(Array(items))
    ensures text == Print(Array(items), depth, fmt)
    decreases items, 1
  {
    if items == [] {
      return "[]";
    }
    var entries: seq<string> := [];
    var len := 5;
    for i := 0 to |items|
      invariant |entries| == i && forall k :: 0 <= k < i ==> entries[k] == Print(items[k], depth + 1, fmt)
      invariant len == 5 + EntriesLength(entries, fmt)
    {
      var ret := WriteValue(items[i], depth + 1, fmt);
      EntriesLengthAppend(entries, ret, fmt);
      entries := entries + [ret];
      len := len + |ret| + 2 + if fmt then 1 else 0;
    }
    text := ComposeArray(items, entries, len, depth + 1, fmt);
  }

  /** The second half of print_array: joins the entries in a buffer of the counted length. */
  method ComposeArray(items: seq<Json>, entries: seq<string>, len: nat, depth: nat, fmt: bool) returns (text: string)
    requires items != [] && WellFormed(Array(items)) && |entries| == |items|
    requires forall k :: 0 <= k < |items| ==> entries[k] == Print(items[k], depth, fmt)
    requires len == 5 + EntriesLength(entries, fmt)
    ensures text == "[" + PrintItems(items, depth, fmt) + "]"
  {
    hide Print, PrintItems, EntriesLength, WellFormed, ItemsLeft;
    var out := new char[len];
    var ptr: nat := Put(out, 0, "[");
    EntriesStart(entries, fmt);
    assert out[..ptr] == "[";
    AllItemsLeft(items, depth, fmt);
    ghost var whole := "[" + ItemsLeft(items, 0, depth, fmt);
    for i := 0 to |entries|
      invariant ptr <= 1 + EntriesLength(entries[..i], fmt) <= out.Length
      invariant out[..ptr] + ItemsLeft(items, i, depth, fmt) == whole
    {
      EntriesFit(entries, i, fmt);
      ptr := PutItem(out, ptr, items, i, entries[i], depth, fmt);
    }
    assert entries[..|entries|] == entries;
    assert out[..ptr] + "" == out[..ptr];
    ptr := Put(out, ptr, "]");
    text := out[..ptr];
    ptr := Put(out, ptr, "\0");
  }

  lemma EntriesStart(entries: seq<string>, fmt: bool)
    ensures EntriesLength(entries[..0], fmt) == 0
  {}

  lemma JoinAssoc(a: string, b: string, c: string, d: string)
    ensures a + (b + (c + d)) == a + b + c + d
  {}

  /** The space print_array counts for its entries and separators. */
  function EntriesLength(entries: seq<string>, fmt: bool): nat {
    if entries == [] then 0
    else EntriesLength(entries[..|entries| - 1], fmt) + |entries[|entries| - 1]| + 2 + (if fmt then 1 else 0)
  }

  /** The items from number i on, as printed. */
  ghost function ItemsLeft(items: seq<Json>, i: nat, depth: nat, fmt: bool): string
    requires i <= |items| && WellFormed(Array(items))
  {
    if i < |items| then PrintItems(items[i..], depth, fmt) else ""
  }

  lemma AllItemsLeft(items: seq<Json>, depth: nat, fmt: bool)
    requires items != [] && WellFormed(Array(items))
    ensures ItemsLeft(items, 0, depth, fmt) == PrintItems(items, depth, fmt) && ItemsLeft(items, |items|, depth, fmt) == ""
  {
    hide PrintItems;
    assert items[0..] == items;
  }

  /** One item of print_array with its separator. */
  method PutItem(out: array<char>, start: nat, items: seq<Json>, i: nat, entry: string, depth: nat, fmt: bool) returns (ptr: nat)
    requires i < |items| && WellFormed(Array(items)) && entry == Print(items[i], depth, fmt)
    requires start + |entry| + 2 + (if fmt then 1 else 0) <= out.Length
    modifies out
    ensures ptr <= start + |entry| + 2 + if fmt then 1 else 0
    ensures out[..ptr] + ItemsLeft(items, i + 1, depth, fmt) == old(out[..start]) + ItemsLeft(items, i, depth, fmt)
  {
    hide Print, PrintItems;
    ghost var before := out[..start];
    ItemsFirst(items, i, depth, fmt);
    ptr := Put(out, start, entry);
    if i != |items| - 1 {
      JoinAssoc(before, entry, if fmt then ", " else ",", PrintItems(items[i + 1..], depth, fmt));
      ptr := Put(out, ptr, ",");
      if fmt {
        ptr := Put(out, ptr, " ");
        assert before + entry + "," + " " == before + entry + ", ";
      }
    } else {
      assert before + entry + "" == before + entry;
    }
  }

  lemma EntriesLengthAppend(entries: seq<string>, e: string, fmt: bool)
    ensures EntriesLength(entries + [e], fmt) == EntriesLength(entries, fmt) + |e| + 2 + (if fmt then 1 else 0)
  {
    assert (entries + [e])[..|entries|] == entries;
  }

  lemma {:induction false} EntriesFit(entries: seq<string>, i: nat, fmt: bool)
    requires i < |entries|
    ensures EntriesLength(entries[..i + 1], fmt) == EntriesLength(entries[..i], fmt) + |entries[i]| + 2 + (if fmt then 1 else 0)
    ensures EntriesLength(entries[..i + 1], fmt) <= EntriesLength(entries, fmt)
    decreases |entries| - i
  {
    assert entries[..i + 1][..i] == entries[..i];
    if i + 1 < |entries| {
      EntriesFit(entries, i + 1, fmt);
    } else {
      assert entries[..i + 1] == entries;
    }
  }

  lemma ItemsFirst(items: seq<Json>, i: nat, depth: nat, fmt: bool)
    requires i < |items| && WellFormed(Array(items))
    ensures i == |items| - 1 ==> PrintItems(items[i..], depth, fmt) == Print(items[i], depth, fmt)
    ensures i < |items| - 1 ==>
      PrintItems(items[i..], depth, fmt) == Print(items[i], depth, fmt) + ((if fmt then ", " else ",") + PrintItems(items[i + 1..], depth, fmt))
  {
    hide Print;
    assert items[i..][1..] == items[i + 1..];
    if i == |items| - 1 {
      assert Print(items[i], depth, fmt) + "" == Print(items[i], depth, fmt);
    }
  }

  /** print_object: prints names and values, allocates the length it has added up, and joins them. */
  method WriteObject(members: seq<Member>, depth: nat, fmt: bool) returns (text: string)
    requires WellFormed(Object(members))
    ensures text == Print(Object(members), depth, fmt)
    decreases members, 2
  {
    hide Print, PrintMembers, PrintString, Tabs;
    if members == [] {
      text := WriteEmptyObject(depth, fmt);
      return;
    }
    var names, entries, len := PrintParts(members, depth + 1, fmt);
    text := ComposeObject(members, names, entries, len, depth + 1, fmt);
    ObjectText(members, depth, fmt);
  }

  /** The first half of print_object: the texts of all names and values, and the length. */
  method PrintParts(members: seq<Member>, depth: nat, fmt: bool) returns (names: seq<string>, entries: seq<string>, len: nat)
    requires WellFormed(Object(members))
    ensures |names| == |entries| == |members|
    ensures forall k :: 0 <= k < |members| ==> names[k] == PrintString(members[k].name) && entries[k] == Print(members[k].value, depth, fmt)
    ensures len == 7 + (if fmt then depth else 0) + MembersLength(names, entries, depth, fmt)
    decreases members, 1
  {
    hide Print, MembersLength, PrintString;
    len := 7 + if fmt then depth else 0;
    names, entries := [], [];
    MembersStart(names, entries, depth, fmt);
    for i := 0 to |members|
      invariant |names| == |entries| == i
      invariant forall k :: 0 <= k < i ==> names[k] == PrintString(members[k].name) && entries[k] == Print(members[k].value, depth, fmt)
      invariant len == 7 + (if fmt then depth else 0) + MembersLength(names, entries, depth, fmt)
    {
      var name := WriteString(members[i].name);
      var str := name[..name.Length - 1];
      var ret := WriteValue(members[i].value, depth, fmt);
      MembersLengthAppend(names, entries, str, ret, depth, fmt);
      names, entries := names + [str], entries + [ret];
      len := len + |ret| + |str| + 2 + if fmt then 2 + depth else 0;
    }
  }

  lemma ObjectText(members: seq<Member>, depth: nat, fmt: bool)
    requires members != [] && WellFormed(Object(members))
    ensures Print(Object(members), depth, fmt)
      == "{" + (if fmt then "\n" else "") + PrintMembers(members, depth + 1, fmt) + (if fmt then Tabs(depth) else "") + "}"
  {}

  /** The empty object, which print_object writes into a buffer of its own size. */
  method WriteEmptyObject(depth: nat, fmt: bool) returns (text: string)
    ensures text == Print(Object([]), depth, fmt)
  {
    var small := new char[if fmt then depth + 4 else 3];
    var end: nat := Put(small, 0, "{");
    if fmt {
      TabsLength(depth - 1);
      end := Put(small, end, "\n");
      end := Put(small, end, Tabs(depth - 1));
    }
    hide Tabs;
    ghost var open := "{" + if fmt then "\n" + Tabs(depth - 1) else "";
    assert small[..end] == open;
    end := Put(small, end, "}");
    text := small[..end];
    end := Put(small, end, "\0");
  }

  /** The second half of print_object. */
  method ComposeObject(members: seq<Member>, names: seq<string>, entries: seq<string>, len: nat, depth: nat, fmt: bool) returns (text: string)
    requires members != [] && WellFormed(Object(members)) && |names| == |entries| == |members| && 1 <= depth
    requires forall k :: 0 <= k < |members| ==> names[k] == PrintString(members[k].name) && entries[k] == Print(members[k].value, depth, fmt)
    requires len == 7 + (if fmt then depth else 0) + MembersLength(names, entries, depth, fmt)
    ensures text == "{" + (if fmt then "\n" else "") + PrintMembers(members, depth, fmt) + (if fmt then Tabs(depth - 1) else "") + "}"
  {
    hide Print, PrintMember, PrintMembers, PrintString, MembersLength, Tabs, WellFormed;
    var out := new char[len];
    var ptr: nat := Put(out, 0, "{");
    if fmt {
      ptr := Put(out, ptr, "\n");
    }
    MembersStart(names, entries, depth, fmt);
    ghost var open := "{" + if fmt then "\n" else "";
    assert out[..ptr] == open;
    AllLeft(members, depth, fmt);
    ghost var whole := open + MembersLeft(members, 0, depth, fmt);
    for i := 0 to |members|
      invariant ptr <= 2 + MembersLength(names[..i], entries[..i], depth, fmt) <= out.Length
      invariant out[..ptr] + MembersLeft(members, i, depth, fmt) == whole
    {
      MembersFit(names, entries, i, depth, fmt);
      ptr := PutLine(out, ptr, members, i, names[i], entries[i], depth, fmt);
    }
    assert names[..|names|] == names && entries[..|entries|] == entries;
    assert out[..ptr] + "" == out[..ptr];
    text := CloseObject(out, ptr, depth, fmt);
  }

  /** The members from number i on, as printed. */
  ghost function MembersLeft(members: seq<Member>, i: nat, depth: nat, fmt: bool): string
    requires i <= |members|
    requires WellFormed(Object(members))
  {
    if i < |members| then PrintMembers(members[i..], depth, fmt) else ""
  }

  lemma AllLeft(members: seq<Member>, depth: nat, fmt: bool)
    requires members != [] && WellFormed(Object(members))
    ensures MembersLeft(members, 0, depth, fmt) == PrintMembers(members, depth, fmt) && MembersLeft(members, |members|, depth, fmt) == ""
  {
    hide PrintMembers;
    assert members[0..] == members;
  }

  /** The end of print_object: indentation, the brace and the terminating NUL. */
  method CloseObject(out: array<char>, start: nat, depth: nat, fmt: bool) returns (text: string)
    requires 1 <= depth && start + 2 + (if fmt then depth else 0) <= out.Length
    modifies out
    ensures text == old(out[..start]) + (if fmt then Tabs(depth - 1) else "") + "}"
  {
    hide Tabs;
    ghost var before := out[..start];
    var ptr := start;
    assert before + "" == before;
    if fmt {
      TabsLength(depth - 1);
      ptr := Put(out, ptr, Tabs(depth - 1));
    }
    ptr := Put(out, ptr, "}");
    text := out[..ptr];
    ptr := Put(out, ptr, "\0");
  }

  /** One line of print_object. */
  method PutLine(out: array<char>, start: nat, members: seq<Member>, i: nat, name: string, entry: string, depth: nat, fmt: bool) returns (ptr: nat)
    requires i < |members| && WellFormed(Object(members))
    requires name == PrintString(members[i].name) && entry == Print(members[i].value, depth, fmt)
    requires start + |name| + |entry| + 2 + (if fmt then depth + 2 else 0) <= out.Length
    modifies out
    ensures ptr <= start + |name| + |entry| + 2 + if fmt then depth + 2 else 0
    ensures out[..ptr] + MembersLeft(members, i + 1, depth, fmt) == old(out[..start]) + MembersLeft(members, i, depth, fmt)
  {
    hide Print, PrintMember, PrintMembers, PrintString, Tabs;
    ghost var before, line := out[..start], PrintMember(members[i], depth, fmt);
    ghost var comma, newline := if i != |members| - 1 then "," else "", if fmt then "\n" else "";
    ptr := PutMember(out, start, members[i], name, entry, depth, fmt);
    assert before + line + "" == before + line && before + line + comma + "" == before + line + comma;
    if i + 1 != |members| {
      ptr := Put(out, ptr, ",");
    }
    if fmt {
      ptr := Put(out, ptr, "\n");
    }
    MembersFirst(members, i, depth, fmt);
    MemberJoin(before, line, comma, newline, if i + 1 < |members| then PrintMembers(members[i + 1..], depth, fmt) else "");
  }

  /** One line of print_object, up to its value. */
  method PutMember(out: array<char>, start: nat, ghost m: Member, name: string, entry: string, depth: nat, fmt: bool) returns (ptr: nat)
    requires IsByteString(m.name) && WellFormed(m.value)
    requires name == PrintString(m.name) && entry == Print(m.value, depth, fmt)
    requires start + |name| + |entry| + 1 + (if fmt then depth + 1 else 0) <= out.Length
    modifies out
    ensures ptr == start + |name| + |entry| + 1 + if fmt then depth + 1 else 0
    ensures out[..ptr] == old(out[..start]) + PrintMember(m, depth, fmt)
  {
    hide Print, PrintString, Tabs;
    ghost var before := out[..start];
    ptr := start;
    if fmt {
      TabsLength(depth);
      ptr := Put(out, ptr, Tabs(depth));
    }
    ptr := Put(out, ptr, name);
    ptr := Put(out, ptr, ":");
    if fmt {
      ptr := Put(out, ptr, "\t");
    }
    ptr := Put(out, ptr, entry);
    if fmt {
      assert before + Tabs(depth) + name + ":" + "\t" + entry == before + (Tabs(depth) + name + ":" + "\t" + entry);
    } else {
      assert before + name + ":" + entry == before + ("" + name + ":" + "" + entry);
    }
  }

  lemma {:induction false} TabsLength(n: int)
    ensures |Tabs(n)| == if n < 0 then 0 else n
  {
    if 0 < n {
      TabsLength(n - 1);
    }
  }

  lemma MemberJoin(a: string, line: string, comma: string, newline: string, next: string)
    ensures a + (line + (comma + (newline + next))) == a + line + comma + newline + next
  {}

  lemma MembersStart(names: seq<string>, entries: seq<string>, depth: nat, fmt: bool)
    requires |names| == |entries|
    ensures MembersLength(names[..0], entries[..0], depth, fmt) == 0
  {}

  /** The space print_object counts for its lines. */
  function MembersLength(names: seq<string>, entries: seq<string>, depth: nat, fmt: bool): nat
    requires |names| == |entries|
  {
    if names == [] then 0
    else
      var n := |names| - 1;
      MembersLength(names[..n], entries[..n], depth, fmt) + |entries[n]| + |names[n]| + 2 + (if fmt then 2 + depth else 0)
  }

  lemma MembersLengthAppend(names: seq<string>, entries: seq<string>, str: string, ret: string, depth: nat, fmt: bool)
    requires |names| == |entries|
    ensures MembersLength(names + [str], entries + [ret], depth, fmt)
      == MembersLength(names, entries, depth, fmt) + |ret| + |str| + 2 + (if fmt then 2 + depth else 0)
  {
    assert (names + [str])[..|names|] == names && (entries + [ret])[..|names|] == entries;
  }

  lemma {:induction false} MembersFit(names: seq<string>, entries: seq<string>, i: nat, depth: nat, fmt: bool)
    requires i < |names| == |entries|
    ensures MembersLength(names[..i + 1], entries[..i + 1], depth, fmt)
      == MembersLength(names[..i], entries[..i], depth, fmt) + |entries[i]| + |names[i]| + 2 + (if fmt then 2 + depth else 0)
    ensures MembersLength(names[..i + 1], entries[..i + 1], depth, fmt) <= MembersLength(names, entries, depth, fmt)
    decreases |names| - i
  {
    assert names[..i + 1][..i] == names[..i] && entries[..i + 1][..i] == entries[..i];
    if i + 1 < |names| {
      MembersFit(names, entries, i + 1, depth, fmt);
    } else {
      assert names[..i + 1] == names && entries[..i + 1] == entries;
    }
  }

  lemma MembersFirst(members: seq<Member>, i: nat, depth: nat, fmt: bool)
    requires i < |members| && WellFormed(Object(members))
    ensures PrintMembers(members[i..], depth, fmt)
      == PrintMember(members[i], depth, fmt)
         + ((if i != |members| - 1 then "," else "")
            + ((if fmt then "\n" else "") + (if i + 1 < |members| then PrintMembers(members[i + 1..], depth, fmt) else "")))
  {
    hide PrintMember;
    assert members[i..][1..] == members[i + 1..];
    var newline := if fmt then "\n" else "";
    if i == |members| - 1 {
      assert "" + (newline + "") == newline;
    } else {
      var next := PrintMembers(members[i + 1..], depth, fmt);
      assert "," + (newline + next) == "," + newline + next;
    }
  }
}
