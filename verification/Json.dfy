/** The JSON values of cJSON, and the texts that cJSON_Print and cJSON_PrintUnformatted give them.
    A character is a byte 1..255; the end of a string stands for the terminating NUL. */
module Json {

  datatype Json =
    | Null
    | False
    | True
    | Number(value: real)
    | String(text: string)
    | Array(items: seq<Json>)
    | Object(members: seq<Member>)

  datatype Member = Member(name: string, value: Json)

  /** The byte a pointer points to: NUL at the end of the string. */
  function Peek(s: string): char {
    if s == "" then '\0' else s[0]
  }

  predicate IsByteString(s: string) {
    forall i :: 0 <= i < |s| ==> 1 <= s[i] as int < 256
  }

  /** A number whose value is a 32-bit integer. */
  predicate IsInt32(r: real) {
    r == r.Floor as real && -0x8000_0000 <= r.Floor < 0x8000_0000
  }

  predicate WellFormed(t: Json) {
    match t
    case Null => true
    case False => true
    case True => true
    case Number(value) => IsInt32(value)
    case String(text) => IsByteString(text)
    case Array(items) => forall i :: 0 <= i < |items| ==> WellFormed(items[i])
    case Object(members) => forall i :: 0 <= i < |members| ==> IsByteString(members[i].name) && WellFormed(members[i].value)
  }

  // ----- printing -----

  function Digit(d: nat): char
    requires d < 10
  {
    '0' + d as char
  }

  function Decimal(n: nat): string {
    if n < 10 then [Digit(n)] else Decimal(n / 10) + [Digit(n % 10)]
  }

  /** sprintf with "%d". */
  function PrintInt(n: int): string {
    if n < 0 then "-" + Decimal(-n) else Decimal(n)
  }

  function HexDigit(d: nat): char
    requires d < 16
  {
    if d < 10 then '0' + d as char else 'a' + (d - 10) as char
  }

  predicate IsPlain(c: char) {
    31 < c as int && c != '\"' && c != '\\'
  }

  /** What print_string_ptr writes for one byte. */
  function EscapeChar(c: char): string
    requires c as int < 256
  {
    if IsPlain(c) then [c]
    else if c == '\\' then "\\\\"
    else if c == '\"' then "\\\""
    else if c as int == 8 then "\\b"
    else if c as int == 12 then "\\f"
    else if c as int == 10 then "\\n"
    else if c as int == 13 then "\\r"
    else if c as int == 9 then "\\t"
    else "\\u00" + [HexDigit(c as int / 16), HexDigit(c as int % 16)]
  }

  function Escape(s: string): string
    requires IsByteString(s)
  {
    if s == "" then "" else EscapeChar(s[0]) + Escape(s[1..])
  }

  function PrintString(s: string): string
    requires IsByteString(s)
  {
    "\"" + Escape(s) + "\""
  }

  function Tabs(n: int): string {
    if n <= 0 then "" else Tabs(n - 1) + "\t"
  }

  /** print_value at the given depth, with or without formatting. */
  function Print(t: Json, depth: nat, fmt: bool): string
    requires WellFormed(t)
    decreases t, 0
  {
    match t
    case Null => "null"
    case False => "false"
    case True => "true"
    case Number(value) => PrintInt(value.Floor)
    case String(text) => PrintString(text)
    case Array(items) =>
      if items == [] then "[]" else "[" + PrintItems(items, depth + 1, fmt) + "]"
    case Object(members) =>
      if members == [] then "{" + (if fmt then "\n" + Tabs(depth - 1) else "") + "}"
      else "{" + (if fmt then "\n" else "") + PrintMembers(members, depth + 1, fmt) + (if fmt then Tabs(depth) else "") + "}"
  }

  function PrintItems(items: seq<Json>, depth: nat, fmt: bool): string
    requires items != [] && forall i :: 0 <= i < |items| ==> WellFormed(items[i])
    decreases items, 1
  {
    Print(items[0], depth, fmt)
    + if |items| == 1 then "" else (if fmt then ", " else ",") + PrintItems(items[1..], depth, fmt)
  }

  function PrintMember(m: Member, depth: nat, fmt: bool): string
    requires IsByteString(m.name) && WellFormed(m.value)
    decreases m, 1
  {
    (if fmt then Tabs(depth) else "") + PrintString(m.name) + ":" + (if fmt then "\t" else "") + Print(m.value, depth, fmt)
  }

  function PrintMembers(members: seq<Member>, depth: nat, fmt: bool): string
    requires members != []
    requires forall i :: 0 <= i < |members| ==> IsByteString(members[i].name) && WellFormed(members[i].value)
    decreases members, 1
  {
    PrintMember(members[0], depth, fmt)
    + if |members| == 1 then (if fmt then "\n" else "") else "," + (if fmt then "\n" else "") + PrintMembers(members[1..], depth, fmt)
  }
}
