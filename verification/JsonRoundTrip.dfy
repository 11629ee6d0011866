/** Parsing undoes printing, formatted or not, for all values with 32-bit integers. */
module JsonRoundTrip {
  import opened Json
  import opened JsonParse

  /** What may follow a printed value without becoming part of a number. */
  predicate Delimited(rest: string) {
    var c := Peek(rest);
    !IsDigit(c) && c != '.' && c != 'e' && c != 'E'
  }

  // ----- numbers -----

  lemma {:induction false} ReadDecimal(n: nat, rest: string)
    ensures ReadDigits(0, Decimal(n) + rest) == ReadDigits(n, rest)
  {
    if n < 10 {
      var s := [Digit(n)] + rest;
      assert s[1..] == rest && IsDigit(Peek(s)) && s[0] as int - '0' as int == n;
    } else {
      var d := Digit(n % 10);
      var s := [d] + rest;
      assert Decimal(n) + rest == Decimal(n / 10) + s;
      ReadDecimal(n / 10, s);
      assert s[1..] == rest && IsDigit(Peek(s)) && s[0] as int - '0' as int == n % 10;
    }
  }

  lemma {:induction false} DecimalStart(n: nat)
    ensures Decimal(n) != "" && IsDigit(Decimal(n)[0])
    ensures Decimal(n)[0] == '0' <==> n == 0
  {
    if n < 10 {
    } else {
      DecimalStart(n / 10);
    }
  }

  lemma ParsePrintedInt(n: int, rest: string)
    requires Delimited(rest)
    ensures ParseNumber(PrintInt(n) + rest) == (n as real, rest)
  {
    hide ReadMantissa, ReadExponent, Delimited;
    var m: nat := if n < 0 then -n else n;
    var digits := Decimal(m) + rest;
    DecimalStart(m);
    MantissaOfDecimal(m, rest);
    NoExponent(rest);
    assert Pow10(0) == 1.0;
    if n < 0 {
      assert (PrintInt(n) + rest)[1..] == digits;
    } else {
      assert PrintInt(n) + rest == digits;
    }
  }

  lemma MantissaOfDecimal(m: nat, rest: string)
    requires Delimited(rest)
    ensures ReadMantissa(Decimal(m) + rest) == Mantissa(m, 0, rest)
  {
    hide Decimal, ReadDigits;
    DecimalStart(m);
    DecimalZero();
    ReadDecimal(m, rest);
    DigitsDone(m, rest);
    if m == 0 {
      assert (Decimal(m) + rest)[1..] == rest;
    }
  }

  lemma DecimalZero()
    ensures Decimal(0) == "0"
  {}

  lemma DigitsDone(acc: nat, rest: string)
    requires Delimited(rest)
    ensures ReadDigits(acc, rest) == (acc, rest)
  {}

  lemma NoExponent(rest: string)
    requires Delimited(rest)
    ensures ReadExponent(rest) == (0, rest)
  {}

  // ----- strings -----

  lemma HexDigitValue(d: nat)
    requires d < 16
    ensures HexValue(HexDigit(d)) == d
  {}

  /** Undoing one control byte written as \\u00xx. */
  lemma ParseControl(c: char, rest: string)
    requires 1 <= c as int < 32
    ensures ParseChars("\\u00" + [HexDigit(c as int / 16), HexDigit(c as int % 16)] + rest) == Prepend([c], ParseChars(rest))
  {
    var high, low := HexDigit(c as int / 16), HexDigit(c as int % 16);
    var text := "\\u00" + [high, low] + rest;
    HexDigitValue(c as int / 16);
    HexDigitValue(c as int % 16);
    assert text[6..] == rest;
    var hex := text[1..][1..];
    assert hex[..4] == ['0', '0', high, low];
    assert hex[0] == '0' && hex[1] == '0' && hex[2] == high && hex[3] == low;
    assert Hex4(hex) == c as int;
    assert Utf8(c as int) == [c];
    assert Unescape(text[1..]) == ([c], 5);
  }

  /** Undoing a backslash and one more character. */
  lemma ParseShort(c: char, letter: char, rest: string)
    requires letter != 'u' && Unescape([letter] + rest) == ([c], 1)
    ensures ParseChars(['\\', letter] + rest) == Prepend([c], ParseChars(rest))
  {
    var text := ['\\', letter] + rest;
    assert text[1..] == [letter] + rest && text[2..] == rest;
  }

  /** Undoing one escaped byte. */
  lemma ParseEscapedChar(c: char, rest: string)
    requires 1 <= c as int < 256
    ensures ParseChars(EscapeChar(c) + rest) == Prepend([c], ParseChars(rest))
  {
    hide ParseChars, Utf8, Hex4;
    if IsPlain(c) {
      ParsePlain(c, rest);
    } else if c == '\\' {
      ParseShort(c, '\\', rest);
    } else if c == '\"' {
      ParseShort(c, '\"', rest);
    } else if c as int == 8 {
      ParseShort(c, 'b', rest);
    } else if c as int == 12 {
      ParseShort(c, 'f', rest);
    } else if c as int == 10 {
      ParseShort(c, 'n', rest);
    } else if c as int == 13 {
      ParseShort(c, 'r', rest);
    } else if c as int == 9 {
      ParseShort(c, 't', rest);
    } else {
      ParseControl(c, rest);
    }
  }

  lemma ParsePlain(c: char, rest: string)
    requires IsPlain(c)
    ensures ParseChars([c] + rest) == Prepend([c], ParseChars(rest))
  {
    assert ([c] + rest)[1..] == rest;
  }

  lemma {:induction false} ParseEscaped(s: string, rest: string)
    requires IsByteString(s)
    ensures ParseChars(Escape(s) + "\"" + rest) == Ok(s, rest)
  {
    if s == "" {
      assert Escape(s) + "\"" + rest == "\"" + rest;
      assert ("\"" + rest)[1..] == rest;
    } else {
      var tail := Escape(s[1..]) + "\"" + rest;
      assert Escape(s) + "\"" + rest == EscapeChar(s[0]) + tail;
      ParseEscapedChar(s[0], tail);
      ParseEscaped(s[1..], rest);
      assert [s[0]] + s[1..] == s;
    }
  }

  lemma ParsePrintedString(s: string, rest: string)
    requires IsByteString(s)
    ensures ParseString(PrintString(s) + rest) == Ok(s, rest)
  {
    assert (PrintString(s) + rest)[1..] == Escape(s) + "\"" + rest;
    ParseEscaped(s, rest);
  }

  // ----- values -----

  lemma {:induction false} SkipTabs(n: int, rest: string)
    ensures Skip(Tabs(n) + rest) == Skip(rest)
  {
    if n <= 0 {
      assert Tabs(n) + rest == rest;
    } else {
      var s := "\t" + rest;
      assert Tabs(n) + rest == Tabs(n - 1) + s;
      SkipTabs(n - 1, s);
      assert s[1..] == rest;
    }
  }

  lemma SkipOne(c: char, rest: string)
    ensures c as int <= 32 ==> Skip([c] + rest) == Skip(rest)
    ensures 32 < c as int ==> Skip([c] + rest) == [c] + rest
  {
    assert ([c] + rest)[1..] == rest;
  }

  /** Every printed value starts with a visible character, so skipping leaves it alone. */
  lemma PrintStart(t: Json, depth: nat, fmt: bool, rest: string)
    requires WellFormed(t)
    ensures var s := Print(t, depth, fmt) + rest; Skip(s) == s && Peek(s) != ']' && Peek(s) != '}'
  {
    if t.Number? {
      DecimalStart(if t.value.Floor < 0 then -t.value.Floor else t.value.Floor);
    }
  }

  // ----- one step of each parse function -----

  lemma ValueWord(word: string, rest: string)
    ensures ParseValue("null" + rest) == Ok(Null, rest)
    ensures ParseValue("false" + rest) == Ok(False, rest)
    ensures ParseValue("true" + rest) == Ok(True, rest)
  {
    var a, b, c := "null" + rest, "false" + rest, "true" + rest;
    assert a[4..] == rest && a[..4] == "null";
    assert b[5..] == rest && b[..5] == "false" && b[0] == 'f';
    assert c[4..] == rest && c[..4] == "true" && c[0] == 't';
  }

  lemma ValueNumber(n: int, rest: string)
    requires Delimited(rest)
    ensures ParseValue(PrintInt(n) + rest) == Ok(Number(n as real), rest)
  {
    hide ParseNumber;
    ParsePrintedInt(n, rest);
    DecimalStart(if n < 0 then -n else n);
  }

  lemma ValueString(text: string, rest: string)
    requires IsByteString(text)
    ensures ParseValue(PrintString(text) + rest) == Ok(String(text), rest)
  {
    hide ParseString;
    assert (PrintString(text) + rest)[0] == '\"';
    ParsePrintedString(text, rest);
  }

  lemma ValueArray(body: string, items: seq<Json>, rest: string)
    requires if items == [] then Skip(body) == "]" + rest
             else Peek(Skip(body)) != ']' && ParseItems(Skip(body)) == Ok(items, rest)
    ensures ParseValue("[" + body) == Ok(Array(items), rest)
  {
    hide ParseItems, Skip;
    assert ("[" + body)[0] == '[' && ("[" + body)[1..] == body;
    assert ("]" + rest)[1..] == rest;
  }

  lemma ValueObject(body: string, members: seq<Member>, rest: string)
    requires if members == [] then Skip(body) == "}" + rest
             else Peek(Skip(body)) != '}' && ParseMembers(Skip(body)) == Ok(members, rest)
    ensures ParseValue("{" + body) == Ok(Object(members), rest)
  {
    hide ParseMembers, Skip;
    assert ("{" + body)[0] == '{' && ("{" + body)[1..] == body;
    assert ("}" + rest)[1..] == rest;
  }

  lemma ItemsLast(text: string, item: Json, after: string, rest: string)
    requires ParseValue(Skip(text)) == Ok(item, after) && Skip(after) == "]" + rest
    ensures ParseItems(text) == Ok([item], rest)
  {
    hide ParseValue, Skip;
    assert ("]" + rest)[1..] == rest;
  }

  lemma ItemsMore(text: string, item: Json, lead: string, items: seq<Json>, rest: string)
    requires ParseValue(Skip(text)) == Ok(item, "," + lead) && ParseItems(lead) == Ok(items, rest)
    ensures ParseItems(text) == Ok([item] + items, rest)
  {
    hide ParseValue;
    assert ("," + lead)[1..] == lead;
    SkipOne(',', lead);
  }

  lemma MembersLast(text: string, member: Member, after: string, rest: string)
    requires ParseMember(text) == Ok(member, after) && Skip(after) == "}" + rest
    ensures ParseMembers(text) == Ok([member], rest)
  {
    hide ParseMember, Skip;
    assert ("}" + rest)[1..] == rest;
  }

  lemma MembersMore(text: string, member: Member, lead: string, members: seq<Member>, rest: string)
    requires ParseMember(text) == Ok(member, "," + lead) && ParseMembers(lead) == Ok(members, rest)
    ensures ParseMembers(text) == Ok([member] + members, rest)
  {
    hide ParseMember;
    assert ("," + lead)[1..] == lead;
    SkipOne(',', lead);
  }

  lemma MemberText(text: string, name: string, lead: string, value: Json, after: string)
    requires ParseString(Skip(text)) == Ok(name, ":" + lead) && ParseValue(Skip(lead)) == Ok(value, after)
    ensures ParseMember(text) == Ok(Member(name, value), after)
  {
    hide ParseString, ParseValue;
    assert (":" + lead)[1..] == lead;
    SkipOne(':', lead);
  }

  // ----- the shape of printed texts -----

  /** Optional whitespace before a text. */
  function Lead(fmt: bool, c: char, s: string): string {
    if fmt then [c] + s else s
  }

  lemma SkipLead(fmt: bool, c: char, s: string)
    requires c as int <= 32
    ensures Skip(Lead(fmt, c, s)) == Skip(s)
  {
    SkipOne(c, s);
  }

  /** The text of the items, up to and including the bracket, and what follows it. */
  function ItemsText(items: seq<Json>, depth: nat, fmt: bool, rest: string): string
    requires items != [] && WellFormed(Array(items))
  {
    PrintItems(items, depth, fmt) + "]" + rest
  }

  lemma ArrayShape(items: seq<Json>, depth: nat, fmt: bool, rest: string)
    requires WellFormed(Array(items))
    ensures items == [] ==> Print(Array(items), depth, fmt) + rest == "[" + ("]" + rest)
    ensures items != [] ==> Print(Array(items), depth, fmt) + rest == "[" + ItemsText(items, depth + 1, fmt, rest)
  {}

  lemma ItemsShape(items: seq<Json>, depth: nat, fmt: bool, rest: string)
    requires items != [] && WellFormed(Array(items))
    ensures |items| == 1 ==> ItemsText(items, depth, fmt, rest) == Print(items[0], depth, fmt) + ("]" + rest)
    ensures |items| > 1 ==>
      ItemsText(items, depth, fmt, rest)
      == Print(items[0], depth, fmt) + ("," + Lead(fmt, ' ', ItemsText(items[1..], depth, fmt, rest)))
  {
    hide Print;
    if |items| > 1 {
      Separated(Print(items[0], depth, fmt), PrintItems(items[1..], depth, fmt), fmt, rest);
    }
  }

  lemma Separated(first: string, next: string, fmt: bool, rest: string)
    ensures first + ((if fmt then ", " else ",") + next) + "]" + rest == first + ("," + Lead(fmt, ' ', next + "]" + rest))
  {
    if fmt {
      assert first + (", " + next) + "]" + rest == first + ("," + ([' '] + (next + "]" + rest)));
    } else {
      assert first + ("," + next) + "]" + rest == first + ("," + (next + "]" + rest));
    }
  }

  /** The text of the members, up to and including the brace, and what follows it. */
  function MembersText(members: seq<Member>, depth: nat, fmt: bool, rest: string): string
    requires members != [] && WellFormed(Object(members)) && 1 <= depth
  {
    PrintMembers(members, depth, fmt) + ((if fmt then Tabs(depth - 1) else "") + ("}" + rest))
  }

  lemma ObjectShape(members: seq<Member>, depth: nat, fmt: bool, rest: string)
    requires WellFormed(Object(members))
    ensures members == [] ==>
      Print(Object(members), depth, fmt) + rest
      == "{" + Lead(fmt, '\n', (if fmt then Tabs(depth - 1) else "") + ("}" + rest))
    ensures members != [] ==>
      Print(Object(members), depth, fmt) + rest
      == "{" + Lead(fmt, '\n', MembersText(members, depth + 1, fmt, rest))
  {
    hide Tabs;
    var close := "}" + rest;
    if members == [] {
      var tabs := Tabs(depth - 1);
      assert "{" + ("\n" + tabs) + "}" + rest == "{" + (['\n'] + (tabs + close));
      assert "{" + "" + "}" + rest == "{" + ("" + close);
    } else {
      var body, tabs := PrintMembers(members, depth + 1, fmt), Tabs(depth);
      assert "{" + "\n" + body + tabs + "}" + rest == "{" + (['\n'] + (body + (tabs + close)));
      assert "{" + "" + body + "" + "}" + rest == "{" + (body + ("" + close));
    }
  }

  lemma MembersShape(members: seq<Member>, depth: nat, fmt: bool, rest: string)
    requires members != [] && WellFormed(Object(members)) && 1 <= depth
    ensures |members| == 1 ==>
      MembersText(members, depth, fmt, rest)
      == PrintMember(members[0], depth, fmt) + Lead(fmt, '\n', (if fmt then Tabs(depth - 1) else "") + ("}" + rest))
    ensures |members| > 1 ==>
      MembersText(members, depth, fmt, rest)
      == PrintMember(members[0], depth, fmt) + ("," + Lead(fmt, '\n', MembersText(members[1..], depth, fmt, rest)))
  {
    hide Tabs, PrintMember;
    var first := PrintMember(members[0], depth, fmt);
    var tail := (if fmt then Tabs(depth - 1) else "") + ("}" + rest);
    if |members| == 1 {
      assert first + "\n" + tail == first + (['\n'] + tail);
      assert first + "" + tail == first + tail;
    } else {
      var next := PrintMembers(members[1..], depth, fmt);
      assert first + ("," + "\n" + next) + tail == first + ("," + (['\n'] + (next + tail)));
      assert first + ("," + "" + next) + tail == first + ("," + (next + tail));
    }
  }

  lemma MemberShape(m: Member, depth: nat, fmt: bool, after: string)
    requires IsByteString(m.name) && WellFormed(m.value)
    ensures PrintMember(m, depth, fmt) + after
         == (if fmt then Tabs(depth) else "") + (PrintString(m.name) + (":" + Lead(fmt, '\t', Print(m.value, depth, fmt) + after)))
  {
    hide Tabs, PrintString, Print;
    var tabs, name, value := Tabs(depth), PrintString(m.name), Print(m.value, depth, fmt);
    assert tabs + name + ":" + "\t" + value + after == tabs + (name + (":" + (['\t'] + (value + after))));
    assert "" + name + ":" + "" + value + after == "" + (name + (":" + (value + after)));
  }

  // ----- the round trip -----

  /** parse_value undoes print_value, at every depth and with or without formatting, whatever
      delimited text follows. */
  lemma {:induction false} ParsePrinted(t: Json, depth: nat, fmt: bool, rest: string)
    requires WellFormed(t) && Delimited(rest)
    ensures ParseValue(Print(t, depth, fmt) + rest) == Ok(t, rest)
    decreases t, 0
  {
    hide ParseValue, ParseItems, ParseMembers, PrintInt, PrintString, PrintItems, PrintMembers, Skip, Tabs;
    match t
    case Null => ValueWord("null", rest);
    case False => ValueWord("false", rest);
    case True => ValueWord("true", rest);
    case Number(value) => ValueNumber(value.Floor, rest);
    case String(text) => ValueString(text, rest);
    case Array(items) =>
      ArrayShape(items, depth, fmt, rest);
      if items == [] {
        SkipOne(']', rest);
        ValueArray("]" + rest, items, rest);
      } else {
        ItemsStart(items, depth + 1, fmt, rest);
        ParsePrintedItems(items, depth + 1, fmt, ItemsText(items, depth + 1, fmt, rest), rest);
        ValueArray(ItemsText(items, depth + 1, fmt, rest), items, rest);
      }
    case Object(members) =>
      ParsePrintedObject(members, depth, fmt, rest);
  }

  lemma ItemsStart(items: seq<Json>, depth: nat, fmt: bool, rest: string)
    requires items != [] && WellFormed(Array(items))
    ensures var s := ItemsText(items, depth, fmt, rest); Skip(s) == s && Peek(s) != ']'
  {
    hide Print, Skip, PrintItems, ItemsText, Lead;
    ItemsShape(items, depth, fmt, rest);
    if |items| == 1 {
      PrintStart(items[0], depth, fmt, "]" + rest);
    } else {
      PrintStart(items[0], depth, fmt, "," + Lead(fmt, ' ', ItemsText(items[1..], depth, fmt, rest)));
    }
  }

  /** The items of an array, with any whitespace in front. */
  lemma {:induction false} ParsePrintedItems(items: seq<Json>, depth: nat, fmt: bool, text: string, rest: string)
    requires items != [] && WellFormed(Array(items))
    requires Skip(text) == ItemsText(items, depth, fmt, rest)
    ensures ParseItems(text) == Ok(items, rest)
    decreases items, 1
  {
    hide ParseValue, ParseItems, Print, PrintItems, ItemsText, Skip, Lead;
    ItemsShape(items, depth, fmt, rest);
    if |items| == 1 {
      ParsePrinted(items[0], depth, fmt, "]" + rest);
      SkipOne(']', rest);
      ItemsLast(text, items[0], "]" + rest, rest);
      assert items == [items[0]];
    } else {
      var next := ItemsText(items[1..], depth, fmt, rest);
      var lead := Lead(fmt, ' ', next);
      ParsePrinted(items[0], depth, fmt, "," + lead);
      SkipLead(fmt, ' ', next);
      ItemsStart(items[1..], depth, fmt, rest);
      ParsePrintedItems(items[1..], depth, fmt, lead, rest);
      ItemsMore(text, items[0], lead, items[1..], rest);
      assert items == [items[0]] + items[1..];
    }
  }

  lemma CloseStart(depth: int, fmt: bool, rest: string)
    ensures Skip(Lead(fmt, '\n', (if fmt then Tabs(depth) else "") + ("}" + rest))) == "}" + rest
    ensures Skip((if fmt then Tabs(depth) else "") + ("}" + rest)) == "}" + rest
  {
    var close := "}" + rest;
    SkipOne('}', rest);
    if fmt {
      SkipTabs(depth, close);
      SkipOne('\n', Tabs(depth) + close);
    } else {
      assert "" + close == close;
    }
  }

  lemma {:induction false} ParsePrintedObject(members: seq<Member>, depth: nat, fmt: bool, rest: string)
    requires WellFormed(Object(members))
    ensures ParseValue(Print(Object(members), depth, fmt) + rest) == Ok(Object(members), rest)
    decreases members, 3
  {
    hide ParseValue, ParseMembers, Print, PrintMembers, MembersText, Skip, Tabs, Lead;
    ObjectShape(members, depth, fmt, rest);
    if members == [] {
      CloseStart(depth - 1, fmt, rest);
      ValueObject(Lead(fmt, '\n', (if fmt then Tabs(depth - 1) else "") + ("}" + rest)), members, rest);
    } else {
      var body := MembersText(members, depth + 1, fmt, rest);
      SkipLead(fmt, '\n', body);
      MembersStart(members, depth + 1, fmt, rest);
      ParsePrintedMembers(members, depth + 1, fmt, Skip(body), rest);
      ValueObject(Lead(fmt, '\n', body), members, rest);
    }
  }

  /** After whitespace, the members of an object start with a quote. */
  lemma MembersStart(members: seq<Member>, depth: nat, fmt: bool, rest: string)
    requires members != [] && WellFormed(Object(members)) && 1 <= depth
    ensures var s := Skip(MembersText(members, depth, fmt, rest)); Peek(s) == '\"' && Skip(s) == s
  {
    hide PrintMember, PrintMembers, MembersText, Skip, Tabs, Lead;
    MembersShape(members, depth, fmt, rest);
    if |members| == 1 {
      MemberStart(members[0], depth, fmt, Lead(fmt, '\n', (if fmt then Tabs(depth - 1) else "") + ("}" + rest)));
    } else {
      MemberStart(members[0], depth, fmt, "," + Lead(fmt, '\n', MembersText(members[1..], depth, fmt, rest)));
    }
  }

  lemma MemberStart(m: Member, depth: nat, fmt: bool, after: string)
    requires IsByteString(m.name) && WellFormed(m.value)
    ensures var name := PrintString(m.name) + (":" + Lead(fmt, '\t', Print(m.value, depth, fmt) + after));
      Skip(PrintMember(m, depth, fmt) + after) == name && Skip(name) == name && Peek(name) == '\"'
  {
    hide Print, PrintMember, Tabs, Lead;
    MemberShape(m, depth, fmt, after);
    var name := PrintString(m.name) + (":" + Lead(fmt, '\t', Print(m.value, depth, fmt) + after));
    assert name[0] == '\"';
    SkipTabs(depth, name);
    assert "" + name == name;
  }

  /** One member, with any whitespace in front. */
  lemma {:induction false} ParsePrintedMember(m: Member, depth: nat, fmt: bool, text: string, after: string)
    requires IsByteString(m.name) && WellFormed(m.value) && Delimited(after)
    requires Skip(text) == Skip(PrintMember(m, depth, fmt) + after)
    ensures ParseMember(text) == Ok(m, after)
    decreases m, 1
  {
    hide ParseValue, ParseString, ParseMember, Print, PrintString, PrintMember, Skip, Tabs, Lead;
    MemberStart(m, depth, fmt, after);
    var value := Print(m.value, depth, fmt) + after;
    var lead := Lead(fmt, '\t', value);
    ParsePrintedString(m.name, ":" + lead);
    SkipLead(fmt, '\t', value);
    PrintStart(m.value, depth, fmt, after);
    ParsePrinted(m.value, depth, fmt, after);
    MemberText(text, m.name, lead, m.value, after);
  }

  /** The members of an object, with any whitespace in front. */
  lemma {:induction false} ParsePrintedMembers(members: seq<Member>, depth: nat, fmt: bool, text: string, rest: string)
    requires members != [] && WellFormed(Object(members)) && 1 <= depth
    requires Skip(text) == Skip(MembersText(members, depth, fmt, rest))
    ensures ParseMembers(text) == Ok(members, rest)
    decreases members, 2
  {
    hide ParseMember, ParseMembers, PrintMember, PrintMembers, MembersText, Skip, Tabs, Lead;
    MembersShape(members, depth, fmt, rest);
    if |members| == 1 {
      var after := Lead(fmt, '\n', (if fmt then Tabs(depth - 1) else "") + ("}" + rest));
      CloseStart(depth - 1, fmt, rest);
      CloseDelimited(depth - 1, fmt, rest);
      ParsePrintedMember(members[0], depth, fmt, text, after);
      MembersLast(text, members[0], after, rest);
      assert members == [members[0]];
    } else {
      var next := MembersText(members[1..], depth, fmt, rest);
      var lead := Lead(fmt, '\n', next);
      ParsePrintedMember(members[0], depth, fmt, text, "," + lead);
      SkipLead(fmt, '\n', next);
      ParsePrintedMembers(members[1..], depth, fmt, lead, rest);
      MembersMore(text, members[0], lead, members[1..], rest);
      assert members == [members[0]] + members[1..];
    }
  }

  lemma CloseDelimited(depth: int, fmt: bool, rest: string)
    ensures Delimited(Lead(fmt, '\n', (if fmt then Tabs(depth) else "") + ("}" + rest)))
  {
    hide Tabs;
    assert "" + ("}" + rest) == "}" + rest;
  }

  /** cJSON_Parse on the text of cJSON_Print or cJSON_PrintUnformatted gives back the value and
      leaves nothing. */
  lemma ParseUndoesPrint(t: Json, fmt: bool)
    requires WellFormed(t)
    ensures ParseValue(Skip(Print(t, 0, fmt))) == Ok(t, "")
  {
    hide ParseValue, Print, Skip;
    ParsePrinted(t, 0, fmt, "");
    PrintStart(t, 0, fmt, "");
    assert Print(t, 0, fmt) + "" == Print(t, 0, fmt);
  }

  // ----- the layout -----

  lemma FewTabs()
    ensures Tabs(-1) == "" && Tabs(0) == "" && Tabs(1) == "\t" && Tabs(2) == "\t\t"
  {}

  lemma OneLetter(c: char)
    requires IsPlain(c) && c as int < 256
    ensures IsByteString([c]) && (c != '\0' ==> PrintString([c]) == ['\"', c, '\"'])
  {
    assert [c][1..] == "";
    assert Escape("") == "";
  }

  lemma OneMember(name: string, value: Json, depth: nat, fmt: bool)
    requires WellFormed(value) && IsByteString(name)
    ensures PrintMember(Member(name, value), depth, fmt)
      == (if fmt then Tabs(depth) else "") + PrintString(name) + ":" + (if fmt then "\t" else "") + Print(value, depth, fmt)
  {}

  /** One member in braces. */
  lemma OneEntry(m: Member, depth: nat, fmt: bool)
    requires IsByteString(m.name) && WellFormed(m.value)
    ensures WellFormed(Object([m]))
    ensures Print(Object([m]), depth, fmt)
      == "{" + (if fmt then "\n" else "") + PrintMember(m, depth + 1, fmt) + (if fmt then "\n" + Tabs(depth) else "") + "}"
  {
    hide PrintMember, Tabs;
  }

  lemma SampleItems(fmt: bool)
    ensures Print(Array([Null, True]), 1, fmt) == if fmt then "[null, true]" else "[null,true]"
  {
    var items := [Null, True];
    assert items[1..] == [True];
    assert PrintItems([True], 2, fmt) == "true";
  }

  /** Samples: items on one line, a member a line with as many tabs as braces are open and a tab behind
      the colon, and an empty object over two lines. */
  lemma SampleArray(fmt: bool)
    ensures PrintMember(Member("a", Array([Null, True])), 1, fmt)
      == if fmt then "\t\"a\":\t[null, true]" else "\"a\":[null,true]"
  {
    hide PrintString, Tabs, Print, PrintMember;
    FewTabs();
    OneLetter('a');
    SampleItems(fmt);
    OneMember("a", Array([Null, True]), 1, fmt);
  }

  lemma SampleNested(fmt: bool)
    ensures PrintMember(Member("b", Object([Member("c", False)])), 1, fmt)
      == if fmt then "\t\"b\":\t{\n\t\t\"c\":\tfalse\n\t}" else "\"b\":{\"c\":false}"
  {
    hide PrintString, Tabs, PrintMember, Print, WellFormed;
    FewTabs();
    OneLetter('b');
    SampleBraces(fmt);
    OneMember("b", Object([Member("c", False)]), 1, fmt);
  }

  lemma SampleBraces(fmt: bool)
    ensures WellFormed(Object([Member("c", False)]))
    ensures Print(Object([Member("c", False)]), 1, fmt) == if fmt then "{\n\t\t\"c\":\tfalse\n\t}" else "{\"c\":false}"
  {
    hide PrintString, Tabs, PrintMember, Print;
    FewTabs();
    SampleInner(fmt);
    OneEntry(Member("c", False), 1, fmt);
  }

  lemma SampleInner(fmt: bool)
    ensures PrintMember(Member("c", False), 2, fmt) == if fmt then "\t\t\"c\":\tfalse" else "\"c\":false"
  {
    hide PrintString, Tabs, PrintMember;
    FewTabs();
    OneLetter('c');
    OneMember("c", False, 2, fmt);
  }

  lemma SampleEmpty(fmt: bool)
    ensures PrintMember(Member("d", Object([])), 1, fmt) == if fmt then "\t\"d\":\t{\n}" else "\"d\":{}"
  {
    hide PrintString, Tabs, PrintMember;
    FewTabs();
    OneLetter('d');
    OneMember("d", Object([]), 1, fmt);
  }

  lemma SampleFlat(name: char, fmt: bool)
    requires IsPlain(name) && name as int < 256 && name != '\0'
    ensures PrintMember(Member([name], Null), 1, fmt) == if fmt then ['\t', '\"', name, '\"', ':', '\t', 'n', 'u', 'l', 'l'] else ['\"', name, '\"', ':', 'n', 'u', 'l', 'l']
  {
    hide PrintString, Tabs, PrintMember;
    FewTabs();
    OneLetter(name);
    OneMember([name], Null, 1, fmt);
  }

  lemma SampleLast(fmt: bool)
    ensures PrintMembers([Member("b", Null)], 1, fmt) == if fmt then "\t\"b\":\tnull\n" else "\"b\":null"
  {
    hide PrintMember;
    SampleFlat('b', fmt);
  }

  lemma SamplePair(fmt: bool)
    ensures PrintMembers([Member("a", Null), Member("b", Null)], 1, fmt)
      == if fmt then "\t\"a\":\tnull" + ",\n" + "\t\"b\":\tnull\n" else "\"a\":null" + "," + "\"b\":null"
  {
    hide PrintMember, PrintMembers;
    SampleFlat('a', fmt);
    SampleLast(fmt);
    FirstOfTwo(Member("a", Null), Member("b", Null), 1, fmt);
  }

  lemma FirstOfTwo(a: Member, b: Member, depth: nat, fmt: bool)
    requires IsByteString(a.name) && WellFormed(a.value) && IsByteString(b.name) && WellFormed(b.value)
    ensures PrintMembers([a, b], depth, fmt) == PrintMember(a, depth, fmt) + (if fmt then ",\n" else ",") + PrintMembers([b], depth, fmt)
  {
    hide PrintMember;
    assert [a, b][1..] == [b];
    assert "," + (if fmt then "\n" else "") == if fmt then ",\n" else ",";
  }

  lemma SampleTwo(fmt: bool)
    ensures WellFormed(Object([Member("a", Null), Member("b", Null)]))
    ensures Print(Object([Member("a", Null), Member("b", Null)]), 0, fmt)
      == if fmt then "{\n" + ("\t\"a\":\tnull" + ",\n" + "\t\"b\":\tnull\n") + "}" else "{" + ("\"a\":null" + "," + "\"b\":null") + "}"
  {
    hide PrintMembers, Tabs;
    FewTabs();
    SamplePair(fmt);
  }
}
