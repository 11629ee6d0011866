/** cJSON_Minify in place; a formatted text becomes exactly the unformatted one. */
module JsonMinify {
  // Whitespace and comments outside string literals are dropped.
  import opened Json
  import opened JsonParse
  import opened JsonRoundTrip

  predicate IsSpace(c: char) {
    c == ' ' || c == '\t' || c == '\r' || c == '\n'
  }

  /** The rest after a line comment: from the newline on. */
  function AfterLine(s: string): (r: string)
    ensures |r| <= |s|
  {
    if s == "" || s[0] == '\n' then s else AfterLine(s[1..])
  }

  /** The rest after the next star-slash. */
  function AfterComment(s: string): (r: string)
    ensures |r| <= |s|
  {
    if s == "" then "" else if s[0] == '*' && Peek(s[1..]) == '/' then s[2..] else AfterComment(s[1..])
  }

  /** Length of a string literal after its opening quote, including the closing one. */
  function LiteralLength(s: string): (n: nat)
    ensures n <= |s|
  {
    if s == "" then 0
    else if s[0] == '\"' then 1
    else if s[0] == '\\' then (if |s| == 1 then 1 else 2 + LiteralLength(s[2..]))
    else 1 + LiteralLength(s[1..])
  }

  /** What Minify keeps of a text. */
  function Minified(s: string): (r: string)
    ensures |r| <= |s|
    decreases |s|
  {
    if s == "" then ""
    else if IsSpace(s[0]) then Minified(s[1..])
    else if s[0] == '/' && Peek(s[1..]) == '/' then Minified(AfterLine(s[1..]))
    else if s[0] == '/' && Peek(s[1..]) == '*' then Minified(AfterComment(s[1..]))
    else if s[0] == '\"' then
      var n := LiteralLength(s[1..]);
      s[..1 + n] + Minified(s[1 + n..])
    else [s[0]] + Minified(s[1..])
  }

  predicate CommentCloses(s: string) {
    s != "" && ((s[0] == '*' && Peek(s[1..]) == '/') || CommentCloses(s[1..]))
  }

  predicate LiteralCloses(s: string) {
    s != "" && (s[0] == '\"' || if s[0] == '\\' then 2 <= |s| && LiteralCloses(s[2..]) else LiteralCloses(s[1..]))
  }

  /** Every comment and string literal of the text is closed. */
  predicate Closes(s: string)
    decreases |s|
  {
    if s == "" then true
    else if IsSpace(s[0]) then Closes(s[1..])
    else if s[0] == '/' && Peek(s[1..]) == '/' then Closes(AfterLine(s[1..]))
    else if s[0] == '/' && Peek(s[1..]) == '*' then CommentCloses(s[1..]) && Closes(AfterComment(s[1..]))
    else if s[0] == '\"' then LiteralCloses(s[1..]) && Closes(s[1 + LiteralLength(s[1..])..])
    else Closes(s[1..])
  }

  // ----- printed texts -----

  /** Text a, in front of any rest, minifies to b on its own and leaves nothing open. */
  ghost predicate Shrinks(a: string, b: string, rest: string) {
    Minified(a + rest) == b + Minified(rest) && Closes(a + rest) == Closes(rest)
  }

  lemma ShrinksBoth(a: string, b: string, c: string, d: string, rest: string)
    requires Shrinks(a, b, c + rest) && Shrinks(c, d, rest)
    ensures Shrinks(a + c, b + d, rest)
  {
    assert a + c + rest == a + (c + rest);
    assert b + (d + Minified(rest)) == b + d + Minified(rest);
  }

  predicate IsCopied(c: char) {
    !IsSpace(c) && c != '/' && c != '\"'
  }

  lemma {:induction false} ShrinksCopied(w: string, rest: string)
    requires forall i :: 0 <= i < |w| ==> IsCopied(w[i])
    ensures Shrinks(w, w, rest)
  {
    if w == "" {
      assert w + rest == rest && w + Minified(rest) == Minified(rest);
    } else {
      ShrinksCopied(w[1..], rest);
      assert (w + rest)[1..] == w[1..] + rest;
      assert w == [w[0]] + w[1..];
    }
  }

  lemma {:induction false} ShrinksSpace(w: string, rest: string)
    requires forall i :: 0 <= i < |w| ==> IsSpace(w[i])
    ensures Shrinks(w, "", rest)
  {
    assert "" + Minified(rest) == Minified(rest);
    if w == "" {
      assert w + rest == rest;
    } else {
      ShrinksSpace(w[1..], rest);
      assert (w + rest)[1..] == w[1..] + rest;
    }
  }

  lemma {:induction false} TabsAreSpace(n: int)
    ensures forall i :: 0 <= i < |Tabs(n)| ==> IsSpace(Tabs(n)[i])
  {
    if 0 < n {
      TabsAreSpace(n - 1);
    }
  }

  /** An escaped character never ends a literal. */
  lemma LiteralSkipsChar(c: char, rest: string)
    requires 1 <= c as int < 256
    ensures LiteralLength(EscapeChar(c) + rest) == |EscapeChar(c)| + LiteralLength(rest)
    ensures LiteralCloses(EscapeChar(c) + rest) == LiteralCloses(rest)
  {
    var e := EscapeChar(c);
    if IsPlain(c) {
      assert (e + rest)[1..] == rest;
    } else if |e| == 2 {
      assert (e + rest)[2..] == rest;
    } else {
      LiteralSkipsPlain(e[2..], rest);
      assert (e + rest)[2..] == e[2..] + rest;
    }
  }

  lemma {:induction false} LiteralSkipsPlain(w: string, rest: string)
    requires forall i :: 0 <= i < |w| ==> w[i] != '\"' && w[i] != '\\'
    ensures LiteralLength(w + rest) == |w| + LiteralLength(rest)
    ensures LiteralCloses(w + rest) == LiteralCloses(rest)
  {
    if w == "" {
      assert w + rest == rest;
    } else {
      LiteralSkipsPlain(w[1..], rest);
      assert (w + rest)[1..] == w[1..] + rest;
    }
  }

  lemma {:induction false} LiteralOfEscaped(s: string, rest: string)
    requires IsByteString(s)
    ensures LiteralLength(Escape(s) + "\"" + rest) == |Escape(s)| + 1
    ensures LiteralCloses(Escape(s) + "\"" + rest)
  {
    if s == "" {
      assert Escape(s) + "\"" + rest == "\"" + rest;
    } else {
      var tail := Escape(s[1..]) + "\"" + rest;
      assert Escape(s) + "\"" + rest == EscapeChar(s[0]) + tail;
      LiteralSkipsChar(s[0], tail);
      LiteralOfEscaped(s[1..], rest);
    }
  }

  lemma ShrinksString(s: string, rest: string)
    requires IsByteString(s)
    ensures Shrinks(PrintString(s), PrintString(s), rest)
  {
    var body := Escape(s) + "\"" + rest;
    var text := PrintString(s) + rest;
    LiteralOfEscaped(s, rest);
    assert text[1..] == body;
    var n := LiteralLength(body);
    assert text[..1 + n] == PrintString(s) && text[1 + n..] == rest;
  }

  lemma {:induction false} DecimalIsCopied(n: nat)
    ensures forall i :: 0 <= i < |Decimal(n)| ==> IsCopied(Decimal(n)[i])
  {
    if 10 <= n {
      DecimalIsCopied(n / 10);
    }
  }

  /** Minifying a printed value, formatted or not, gives its unformatted text, whatever follows. */
  lemma {:induction false} ShrinksPrinted(t: Json, depth: nat, fmt: bool, plain: nat, rest: string)
    requires WellFormed(t)
    ensures Shrinks(Print(t, depth, fmt), Print(t, plain, false), rest)
    decreases t, 0
  {
    hide Shrinks, PrintItems, PrintMembers, PrintString;
    match t
    case Null => ShrinksCopied("null", rest);
    case False => ShrinksCopied("false", rest);
    case True => ShrinksCopied("true", rest);
    case Number(value) =>
      DecimalIsCopied(if value.Floor < 0 then -value.Floor else value.Floor);
      ShrinksCopied(PrintInt(value.Floor), rest);
    case String(text) => ShrinksString(text, rest);
    case Array(items) => ShrinksArray(items, depth, fmt, plain, rest);
    case Object(members) => ShrinksObject(members, depth, fmt, plain, rest);
  }

  lemma {:induction false} ShrinksArray(items: seq<Json>, depth: nat, fmt: bool, plain: nat, rest: string)
    requires WellFormed(Array(items))
    ensures Shrinks(Print(Array(items), depth, fmt), Print(Array(items), plain, false), rest)
    decreases items, 2
  {
    hide Shrinks, PrintItems;
    if items == [] {
      ShrinksCopied("[]", rest);
    } else {
      var a, b := PrintItems(items, depth + 1, fmt), PrintItems(items, plain + 1, false);
      ShrinksCopied("]", rest);
      ShrinksItems(items, depth + 1, fmt, plain + 1, "]" + rest);
      ShrinksCopied("[", a + ("]" + rest));
      assert (a + "]") + rest == a + ("]" + rest);
      ShrinksBoth(a, b, "]", "]", rest);
      ShrinksBoth("[", "[", a + "]", b + "]", rest);
      assert "[" + (a + "]") == "[" + a + "]" && "[" + (b + "]") == "[" + b + "]";
    }
  }

  lemma {:induction false} ShrinksItems(items: seq<Json>, depth: nat, fmt: bool, plain: nat, rest: string)
    requires items != [] && WellFormed(Array(items))
    ensures Shrinks(PrintItems(items, depth, fmt), PrintItems(items, plain, false), rest)
    decreases items, 1
  {
    hide Shrinks, Print;
    var a, b := Print(items[0], depth, fmt), Print(items[0], plain, false);
    if |items| == 1 {
      ShrinksPrinted(items[0], depth, fmt, plain, rest);
      assert a + "" == a && b + "" == b;
    } else {
      var c, d := PrintItems(items[1..], depth, fmt), PrintItems(items[1..], plain, false);
      ShrinksItems(items[1..], depth, fmt, plain, rest);
      var comma := if fmt then ", " else ",";
      ShrinksComma(fmt, ' ', c + rest);
      assert comma == if fmt then "," + [' '] else ",";
      ShrinksBoth(comma, ",", c, d, rest);
      ShrinksPrinted(items[0], depth, fmt, plain, comma + c + rest);
      ShrinksBoth(a, b, comma + c, "," + d, rest);
    }
  }

  lemma ShrinksComma(fmt: bool, space: char, rest: string)
    requires IsSpace(space)
    ensures Shrinks(if fmt then "," + [space] else ",", ",", rest)
  {
    hide Shrinks;
    ShrinksCopied(",", [space] + rest);
    ShrinksSpace([space], rest);
    ShrinksBoth(",", ",", [space], "", rest);
    assert "," + "" == ",";
    ShrinksCopied(",", rest);
  }

  lemma ShrinksGap(fmt: bool, space: string, rest: string)
    requires forall i :: 0 <= i < |space| ==> IsSpace(space[i])
    ensures Shrinks(if fmt then space else "", "", rest)
  {
    ShrinksSpace(space, rest);
    ShrinksSpace("", rest);
  }

  lemma {:induction false} ShrinksObject(members: seq<Member>, depth: nat, fmt: bool, plain: nat, rest: string)
    requires WellFormed(Object(members))
    ensures Shrinks(Print(Object(members), depth, fmt), Print(Object(members), plain, false), rest)
    decreases members, 4
  {
    hide Shrinks, PrintMembers, Tabs;
    ShrinksCopied("}", rest);
    if members == [] {
      var gap := if fmt then "\n" + Tabs(depth - 1) else "";
      TabsAreSpace(depth - 1);
      ShrinksGap(fmt, "\n" + Tabs(depth - 1), "}" + rest);
      ShrinksBoth(gap, "", "}", "}", rest);
      ShrinksCopied("{", gap + "}" + rest);
      ShrinksBoth("{", "{", gap + "}", "" + "}", rest);
      assert "{" + (gap + "}") == "{" + gap + "}" && "{" + ("" + "}") == "{" + "" + "}";
    } else {
      var a, b := PrintMembers(members, depth + 1, fmt), PrintMembers(members, plain + 1, false);
      var newline, tabs := if fmt then "\n" else "", if fmt then Tabs(depth) else "";
      TabsAreSpace(depth);
      ShrinksGap(fmt, Tabs(depth), "}" + rest);
      ShrinksBoth(tabs, "", "}", "}", rest);
      ShrinksMembers(members, depth + 1, fmt, plain + 1, tabs + "}" + rest);
      ShrinksBoth(a, b, tabs + "}", "" + "}", rest);
      ShrinksGap(fmt, "\n", a + (tabs + "}") + rest);
      ShrinksBoth(newline, "", a + (tabs + "}"), b + ("" + "}"), rest);
      ShrinksCopied("{", newline + (a + (tabs + "}")) + rest);
      ShrinksBoth("{", "{", newline + (a + (tabs + "}")), "" + (b + ("" + "}")), rest);
      assert "{" + (newline + (a + (tabs + "}"))) == "{" + newline + a + tabs + "}";
      assert "{" + ("" + (b + ("" + "}"))) == "{" + "" + b + "" + "}";
    }
  }

  lemma {:induction false} ShrinksMember(m: Member, depth: nat, fmt: bool, plain: nat, rest: string)
    requires IsByteString(m.name) && WellFormed(m.value)
    ensures Shrinks(PrintMember(m, depth, fmt), PrintMember(m, plain, false), rest)
    decreases m, 2
  {
    hide Shrinks, Print, PrintString, Tabs;
    var tabs, tab := if fmt then Tabs(depth) else "", if fmt then "\t" else "";
    var name, a, b := PrintString(m.name), Print(m.value, depth, fmt), Print(m.value, plain, false);
    ShrinksPrinted(m.value, depth, fmt, plain, rest);
    ShrinksGap(fmt, "\t", a + rest);
    ShrinksBoth(tab, "", a, b, rest);
    ShrinksCopied(":", tab + a + rest);
    ShrinksBoth(":", ":", tab + a, "" + b, rest);
    ShrinksString(m.name, ":" + (tab + a) + rest);
    ShrinksBoth(name, name, ":" + (tab + a), ":" + ("" + b), rest);
    TabsAreSpace(depth);
    ShrinksGap(fmt, Tabs(depth), name + (":" + (tab + a)) + rest);
    ShrinksBoth(tabs, "", name + (":" + (tab + a)), name + (":" + ("" + b)), rest);
    assert tabs + (name + (":" + (tab + a))) == tabs + name + ":" + tab + a;
    assert "" + (name + (":" + ("" + b))) == "" + name + ":" + "" + b;
  }

  lemma {:induction false} ShrinksMembers(members: seq<Member>, depth: nat, fmt: bool, plain: nat, rest: string)
    requires members != [] && WellFormed(Object(members))
    ensures Shrinks(PrintMembers(members, depth, fmt), PrintMembers(members, plain, false), rest)
    decreases members, 3
  {
    hide Shrinks, PrintMember;
    var a, b := PrintMember(members[0], depth, fmt), PrintMember(members[0], plain, false);
    if |members| == 1 {
      var newline := if fmt then "\n" else "";
      ShrinksGap(fmt, "\n", rest);
      ShrinksMember(members[0], depth, fmt, plain, newline + rest);
      ShrinksBoth(a, b, newline, "", rest);
    } else {
      var c, d := PrintMembers(members[1..], depth, fmt), PrintMembers(members[1..], plain, false);
      var newline := if fmt then "\n" else "";
      ShrinksMembers(members[1..], depth, fmt, plain, rest);
      ShrinksGap(fmt, "\n", c + rest);
      ShrinksBoth(newline, "", c, d, rest);
      ShrinksCopied(",", newline + c + rest);
      ShrinksBoth(",", ",", newline + c, "" + d, rest);
      ShrinksMember(members[0], depth, fmt, plain, "," + (newline + c) + rest);
      ShrinksBoth(a, b, "," + (newline + c), "," + ("" + d), rest);
      assert "," + newline + c == "," + (newline + c);
      assert "," + "" + d == "," + ("" + d);
    }
  }

  /** Minifying the text of cJSON_Print gives the text of cJSON_PrintUnformatted. */
  lemma MinifyPrinted(t: Json, fmt: bool)
    requires WellFormed(t)
    ensures Minified(Print(t, 0, fmt)) == Print(t, 0, false) && Closes(Print(t, 0, fmt))
  {
    hide Print;
    ShrinksPrinted(t, 0, fmt, 0, "");
    assert Print(t, 0, fmt) + "" == Print(t, 0, fmt);
    assert Print(t, 0, false) + "" == Print(t, 0, false);
  }

  // ----- in place -----

  /** The buffer between steps: `written` is in front of the write position, and from the read
      position on it is still the old text and its terminating NUL. */
  ghost predicate InPlace(buffer: seq<char>, text: string, from: nat, into: nat, written: string) {
    && into <= from <= |text| < |buffer| && buffer[|text|] == '\0'
    && (forall i :: 0 <= i < |text| ==> text[i] != '\0')
    && buffer[..into] == written
    && forall i :: from <= i < |text| ==> buffer[i] == text[i]
  }

  lemma Reads(buffer: seq<char>, text: string, from: nat, into: nat, written: string)
    requires InPlace(buffer, text, from, into, written)
    ensures into <= from <= |text| < |buffer|
    ensures buffer[from] == Peek(text[from..]) && (buffer[from] == '\0' <==> from == |text|)
    ensures from < |text| ==> buffer[from + 1] == Peek(text[from + 1..]) && text[from..][1..] == text[from + 1..]
    ensures from + 1 < |text| ==> text[from..][2..] == text[from + 2..]
  {}

  /** *into++ = *json++ */
  lemma Copies(buffer: seq<char>, text: string, from: nat, into: nat, written: string)
    requires InPlace(buffer, text, from, into, written) && from < |text|
    ensures InPlace(buffer[into := buffer[from]], text, from + 1, into + 1, written + [text[from]])
  {}

  lemma Advances(buffer: seq<char>, text: string, from: nat, into: nat, written: string, from': nat)
    requires InPlace(buffer, text, from, into, written) && from <= from' <= |text|
    ensures InPlace(buffer, text, from', into, written)
  {}

  /** cJSON_Minify on a NUL-terminated buffer whose comments and literals are closed.  The write
      position never passes the read position. */
  method Minify(json: array<char>, n: nat)
    requires n < json.Length && json[n] == '\0'
    requires forall i :: 0 <= i < n ==> json[i] != '\0'
    requires Closes(json[..n])
    modifies json
    ensures var m := Minified(old(json[..n])); |m| <= n && json[..|m|] == m && json[|m|] == '\0'
  {
    hide Minified, Closes, InPlace;
    ghost var text, written := json[..n], "";
    var from, into: nat := 0, 0;
    StartsInPlace(json[..], text);
    while json[from] != '\0'
      invariant InPlace(json[..], text, from, into, written) && from <= n < json.Length
      invariant written + Minified(text[from..]) == Minified(text) && Closes(text[from..])
      invariant json[from] == '\0' <==> from == n
      decreases n - from
    {
      from, into, written := Token(json, text, from, into, written);
    }
    Reads(json[..], text, from, into, written);
    MinifiedStep("");
    Written(json[..], text, from, into, written);
    json[into] := '\0';
  }

  lemma StartsInPlace(buffer: seq<char>, text: string)
    requires |text| < |buffer| && buffer[..|text|] == text && buffer[|text|] == '\0'
    requires forall i :: 0 <= i < |text| ==> text[i] != '\0'
    ensures InPlace(buffer, text, 0, 0, "") && "" + Minified(text[0..]) == Minified(text) && text[0..] == text
    ensures buffer[0] == '\0' <==> 0 == |text|
  {
    hide Minified;
  }

  /** One round of the loop: a whitespace character, a comment, a literal or another character. */
  method Token(json: array<char>, ghost text: string, from0: nat, into0: nat, ghost written0: string)
    returns (from: nat, into: nat, ghost written: string)
    requires InPlace(json[..], text, from0, into0, written0) && from0 < |text| < json.Length
    requires Closes(text[from0..])
    modifies json
    ensures from0 < from <= |text| && InPlace(json[..], text, from, into, written)
    ensures written + Minified(text[from..]) == written0 + Minified(text[from0..]) && Closes(text[from..])
    ensures json[from] == '\0' <==> from == |text|
  {
    hide Minified, Closes, InPlace, AfterLine, AfterComment, LiteralLength, LiteralCloses, CommentCloses, Peek;
    from, into, written := from0, into0, written0;
    Reads(json[..], text, from, into, written);
    MinifiedStep(text[from..]);
    FirstOf(text, from);
    if IsSpace(json[from]) {
      Advances(json[..], text, from, into, written, from + 1);
      from := from + 1;
    } else if json[from] == '/' && json[from + 1] == '/' {
      from := SkipLine(json, text, from + 1, into, written);
    } else if json[from] == '/' && json[from + 1] == '*' {
      from := SkipComment(json, text, from + 1, into, written);
    } else if json[from] == '\"' {
      from, into := CopyLiteral(json, text, from, into, written);
      LiteralKept(text, from0, from, written);
      written := written + text[from0..from];
    } else {
      OneKept(text, from, written);
      from, into := CopyByte(json, text, from, into, from0, written);
      written := written + text[from0..from];
    }
    Reads(json[..], text, from, into, written);
  }

  lemma FirstOf(text: string, from: nat)
    requires from < |text|
    ensures text[from..] != "" && text[from..][0] == text[from] == Peek(text[from..])
  {}

  lemma LiteralKept(text: string, start: nat, from: nat, written: string)
    requires start < from <= |text|
    ensures written + (text[start..][..from - start] + Minified(text[start..][from - start..])) == written + text[start..from] + Minified(text[from..])
  {
    hide Minified;
    assert text[start..][..from - start] == text[start..from] && text[start..][from - start..] == text[from..];
    ConcatAssoc(written, text[start..from], Minified(text[from..]));
  }

  lemma OneKept(text: string, from: nat, written: string)
    requires from < |text|
    ensures written + ([text[from]] + Minified(text[from + 1..])) == written + text[from..from + 1] + Minified(text[from + 1..])
    ensures written + text[from..from] == written
  {
    hide Minified;
    assert text[from..from + 1] == [text[from]];
    ConcatAssoc(written, [text[from]], Minified(text[from + 1..]));
  }

  lemma Written(buffer: seq<char>, text: string, from: nat, into: nat, written: string)
    requires InPlace(buffer, text, from, into, written)
    ensures into <= |buffer| && buffer[..into] == written
  {}

  lemma ConcatAssoc(a: string, b: string, c: string)
    ensures a + (b + c) == (a + b) + c
  {}

  lemma MinifiedStep(s: string)
    ensures s == "" ==> Minified(s) == ""
    ensures s != "" && IsSpace(s[0]) ==> Minified(s) == Minified(s[1..]) && Closes(s) == Closes(s[1..])
    ensures s != "" && s[0] == '/' && Peek(s[1..]) == '/' ==>
      Minified(s) == Minified(AfterLine(s[1..])) && Closes(s) == Closes(AfterLine(s[1..]))
    ensures s != "" && s[0] == '/' && Peek(s[1..]) == '*' ==>
      Minified(s) == Minified(AfterComment(s[1..])) && Closes(s) == (CommentCloses(s[1..]) && Closes(AfterComment(s[1..])))
    ensures s != "" && s[0] == '\"' ==>
      var n := LiteralLength(s[1..]);
      Minified(s) == s[..1 + n] + Minified(s[1 + n..]) && Closes(s) == (LiteralCloses(s[1..]) && Closes(s[1 + n..]))
    ensures s != "" && !IsSpace(s[0]) && s[0] != '\"' && (s[0] != '/' || (Peek(s[1..]) != '/' && Peek(s[1..]) != '*')) ==>
      Minified(s) == [s[0]] + Minified(s[1..]) && Closes(s) == Closes(s[1..])
  {}

  /** The loop over a line comment. */
  method SkipLine(json: array<char>, ghost text: string, start: nat, ghost into: nat, ghost written: string) returns (from: nat)
    requires start <= |text|
    requires InPlace(json[..], text, start - (if start == 0 then 0 else 1), into, written)
    ensures start <= from <= |text| && text[from..] == AfterLine(text[start..])
    ensures InPlace(json[..], text, from, into, written)
  {
    from := start;
    while json[from] != '\0' && json[from] != '\n'
      invariant start <= from <= |text| && InPlace(json[..], text, from, into, written)
      invariant AfterLine(text[from..]) == AfterLine(text[start..])
      decreases |text| - from
    {
      assert text[from..][1..] == text[from + 1..];
      from := from + 1;
    }
  }

  /** The loop over a block comment, and the step over its star-slash. */
  lemma CommentStep(s: string)
    requires CommentCloses(s)
    ensures s != ""
    ensures s[0] == '*' && Peek(s[1..]) == '/' ==> 2 <= |s| && AfterComment(s) == s[2..]
    ensures !(s[0] == '*' && Peek(s[1..]) == '/') ==> CommentCloses(s[1..]) && AfterComment(s) == AfterComment(s[1..])
  {}

  method SkipComment(json: array<char>, ghost text: string, start: nat, ghost into: nat, ghost written: string) returns (from: nat)
    requires start <= |text| && CommentCloses(text[start..])
    requires InPlace(json[..], text, start - (if start == 0 then 0 else 1), into, written)
    ensures start <= from <= |text| && text[from..] == AfterComment(text[start..])
    ensures InPlace(json[..], text, from, into, written)
  {
    hide CommentCloses, AfterComment;
    from := start;
    while json[from] != '\0' && !(json[from] == '*' && json[from + 1] == '/')
      invariant start <= from <= |text| && InPlace(json[..], text, from, into, written)
      invariant CommentCloses(text[from..])
      invariant AfterComment(text[from..]) == AfterComment(text[start..])
      decreases |text| - from
    {
      Reads(json[..], text, from, into, written);
      CommentStep(text[from..]);
      Advances(json[..], text, from, into, written, from + 1);
      assert text[from..][1..] == text[from + 1..];
      from := from + 1;
    }
    Reads(json[..], text, from, into, written);
    CommentStep(text[from..]);
    Advances(json[..], text, from, into, written, from + 2);
    assert text[from..][2..] == text[from + 2..];
    from := from + 2;
  }

  /** *into++ = *json++ */
  method CopyByte(json: array<char>, ghost text: string, from0: nat, into0: nat, ghost start: nat, ghost written0: string)
    returns (from: nat, into: nat)
    requires start <= from0 < |text| && InPlace(json[..], text, from0, into0, written0 + text[start..from0])
    modifies json
    ensures from == from0 + 1 && into == into0 + 1 && from <= |text| < json.Length
    ensures InPlace(json[..], text, from, into, written0 + text[start..from])
    ensures json[from] == Peek(text[from..]) && (json[from] == '\0' <==> from == |text|)
  {
    Copies(json[..], text, from0, into0, written0 + text[start..from0]);
    assert written0 + text[start..from0 + 1] == written0 + text[start..from0] + [text[from0]];
    json[into0] := json[from0];
    from, into := from0 + 1, into0 + 1;
  }

  /** A string literal, copied with its quotes. */
  method CopyLiteral(json: array<char>, ghost text: string, start: nat, into0: nat, ghost written0: string)
    returns (from: nat, into: nat)
    requires InPlace(json[..], text, start, into0, written0)
    requires start < |text| && text[start] == '\"' && LiteralCloses(text[start + 1..])
    modifies json
    ensures from == start + 1 + LiteralLength(text[start + 1..]) <= |text| < json.Length
    ensures InPlace(json[..], text, from, into, written0 + text[start..from])
  {
    hide LiteralLength, LiteralCloses, InPlace, Peek;
    assert written0 + text[start..start] == written0;
    from, into := CopyByte(json, text, start, into0, start, written0);
    while json[from] != '\0' && json[from] != '\"'
      invariant start < from <= |text| < json.Length
      invariant InPlace(json[..], text, from, into, written0 + text[start..from])
      invariant json[from] == Peek(text[from..]) && (json[from] == '\0' <==> from == |text|)
      invariant LiteralCloses(text[from..])
      invariant LiteralLength(text[start + 1..]) == from - (start + 1) + LiteralLength(text[from..])
      decreases |text| - from
    {
      LiteralStep(text, from);
      if json[from] == '\\' {
        from, into := CopyByte(json, text, from, into, start, written0);
      }
      from, into := CopyByte(json, text, from, into, start, written0);
    }
    LiteralStep(text, from);
    from, into := CopyByte(json, text, from, into, start, written0);
  }

  lemma LiteralStep(text: string, from: nat)
    requires from <= |text| && LiteralCloses(text[from..])
    ensures from < |text| && Peek(text[from..]) == text[from]
    ensures text[from] == '\"' ==> LiteralLength(text[from..]) == 1
    ensures text[from] == '\\' ==> from + 2 <= |text| && LiteralCloses(text[from + 2..]) && LiteralLength(text[from..]) == 2 + LiteralLength(text[from + 2..])
    ensures text[from] != '\"' && text[from] != '\\' ==> LiteralCloses(text[from + 1..]) && LiteralLength(text[from..]) == 1 + LiteralLength(text[from + 1..])
  {
    var s := text[from..];
    assert s[1..] == text[from + 1..];
    if 2 <= |s| {
      assert s[2..] == text[from + 2..];
    }
  }
}
