/**
 JSON text (RFC 8259) for the values this repository stores: strings, arrays, objects and null.
 Printing follows encoding/json (no white space, its escapes); parsing also accepts white space
 between tokens (section 2) and every escape of section 7.
 */
module Json {
  import opened Wrappers

  datatype Json = Null | Str(text: string) | Arr(items: seq<Json>) | Obj(members: seq<Member>)
  datatype Member = Member(key: string, value: Json)

  datatype Parsed<+T> = Fail | Got(value: T, rest: string)

  // ---------------------------------------------------------------- printing

  function HexDigit(d: nat): char
    requires d < 16
  {
    if d < 10 then (48 + d) as char else (87 + d) as char
  }

  function Hex4(n: nat): string
    requires n < 0x1_0000
  {
    [HexDigit(n / 16 / 16 / 16), HexDigit(n / 16 / 16 % 16), HexDigit(n / 16 % 16), HexDigit(n % 16)]
  }

  predicate NeedsHex(c: char) {
    c < ' ' || c == '<' || c == '>' || c == '&' || c == '\U{2028}' || c == '\U{2029}'
  }

  function EscapeChar(c: char): string {
    if c == '\"' then "\\\""
    else if c == '\\' then "\\\\"
    else if c == '\n' then "\\n"
    else if c == '\r' then "\\r"
    else if c == '\t' then "\\t"
    else if NeedsHex(c) then "\\u" + Hex4(c as int)
    else [c]
  }

  function Escape(t: string): string {
    if t == "" then "" else EscapeChar(t[0]) + Escape(t[1..])
  }

  function Quote(t: string): string {
    "\"" + (Escape(t) + "\"")
  }

  function Print(j: Json): (s: string)
    ensures s != "" && !IsSpace(s[0]) && s[0] != ']'
    decreases j, 1
  {
    match j
    case Null => "null"
    case Str(t) => Quote(t)
    case Arr(items) => if items == [] then "[]" else "[" + PrintItems(items)
    case Obj(members) => if members == [] then "{}" else "{" + PrintMembers(members)
  }

  /** The items and the closing bracket. */
  function PrintItems(items: seq<Json>): (s: string)
    requires items != []
    ensures s != "" && !IsSpace(s[0]) && s[0] != ']'
    decreases items, 0
  {
    Print(items[0]) + if |items| == 1 then "]" else "," + PrintItems(items[1..])
  }

  /** The members and the closing brace. */
  function PrintMembers(members: seq<Member>): (s: string)
    requires members != []
    ensures s != "" && s[0] == '\"'
    decreases members, 0
  {
    PrintMember(members[0]) + if |members| == 1 then "}" else "," + PrintMembers(members[1..])
  }

  function PrintMember(m: Member): (s: string)
    ensures s != "" && s[0] == '\"'
    decreases m, 2
  {
    Quote(m.key) + (":" + Print(m.value))
  }

  // ---------------------------------------------------------------- parsing

  predicate IsSpace(c: char) {
    c == ' ' || c == '\t' || c == '\n' || c == '\r'
  }

  function Skip(s: string): (r: string)
    ensures |r| <= |s|
    ensures s != "" && !IsSpace(s[0]) ==> r == s
  {
    if s != "" && IsSpace(s[0]) then Skip(s[1..]) else s
  }

  function HexValue(c: char): Option<nat> {
    if '0' <= c <= '9' then Some(c as int - 48)
    else if 'a' <= c <= 'f' then Some(c as int - 87)
    else if 'A' <= c <= 'F' then Some(c as int - 55)
    else None
  }

  function ParseHex4(s: string): Option<nat>
    requires |s| == 4
  {
    match (HexValue(s[0]), HexValue(s[1]), HexValue(s[2]), HexValue(s[3]))
    case (Some(a), Some(b), Some(c), Some(d)) => Some(4096 * a + 256 * b + 16 * c + d)
    case _ => None
  }

  /** One code unit as a character; a lone surrogate becomes U+FFFD. */
  function CodeUnit(n: nat): char {
    if n < 0xD800 || 0xE000 <= n < 0x11_0000 then n as char else '\U{FFFD}'
  }

  /** One character of a string literal, escaped or not. */
  function ParseChar(s: string): (r: Parsed<char>)
    requires s != ""
    ensures r.Got? ==> |r.rest| < |s|
  {
    if s[0] != '\\' then
      if s[0] < ' ' then Fail else Got(s[0], s[1..])
    else if |s| < 2 then Fail
    else if s[1] == '\"' || s[1] == '\\' || s[1] == '/' then Got(s[1], s[2..])
    else if s[1] == 'b' then Got(8 as char, s[2..])
    else if s[1] == 'f' then Got(12 as char, s[2..])
    else if s[1] == 'n' then Got('\n', s[2..])
    else if s[1] == 'r' then Got('\r', s[2..])
    else if s[1] == 't' then Got('\t', s[2..])
    else if s[1] == 'u' && |s| >= 6 then
      match ParseHex4(s[2..6])
      case None => Fail
      case Some(n) => Got(CodeUnit(n), s[6..])
    else Fail
  }

  /** The rest of a string literal, after its opening quote. */
  function ParseString(s: string): (r: Parsed<string>)
    ensures r.Got? ==> |r.rest| < |s|
  {
    if s == "" then Fail
    else if s[0] == '\"' then Got("", s[1..])
    else match ParseChar(s)
      case Fail => Fail
      case Got(c, rest) =>
        match ParseString(rest)
        case Fail => Fail
        case Got(t, rest') => Got([c] + t, rest')
  }

  function ParseValue(s: string): (r: Parsed<Json>)
    ensures r.Got? ==> |r.rest| < |s|
    decreases |s|, 0
  {
    if s == "" then Fail
    else if s[0] == 'n' then
      if |s| >= 4 && s[..4] == "null" then Got(Null, s[4..]) else Fail
    else if s[0] == '\"' then
      match ParseString(s[1..])
      case Fail => Fail
      case Got(t, rest) => Got(Str(t), rest)
    else if s[0] == '[' then
      var body := Skip(s[1..]);
      if body == "" then Fail
      else if body[0] == ']' then Got(Arr([]), body[1..])
      else match ParseItems(body)
        case Fail => Fail
        case Got(items, rest) => Got(Arr(items), rest)
    else if s[0] == '{' then
      var body := Skip(s[1..]);
      if body == "" then Fail
      else if body[0] == '}' then Got(Obj([]), body[1..])
      else match ParseMembers(body)
        case Fail => Fail
        case Got(members, rest) => Got(Obj(members), rest)
    else Fail
  }

  function ParseItems(s: string): (r: Parsed<seq<Json>>)
    ensures r.Got? ==> |r.rest| < |s|
    decreases |s|, 1
  {
    match ParseValue(s)
    case Fail => Fail
    case Got(item, rest) =>
      var more := Skip(rest);
      if more == "" then Fail
      else if more[0] == ']' then Got([item], more[1..])
      else if more[0] != ',' then Fail
      else match ParseItems(Skip(more[1..]))
        case Fail => Fail
        case Got(items, rest') => Got([item] + items, rest')
  }

  function ParseMembers(s: string): (r: Parsed<seq<Member>>)
    ensures r.Got? ==> |r.rest| < |s|
    decreases |s|, 2
  {
    match ParseMember(s)
    case Fail => Fail
    case Got(member, rest) =>
      var more := Skip(rest);
      if more == "" then Fail
      else if more[0] == '}' then Got([member], more[1..])
      else if more[0] != ',' then Fail
      else match ParseMembers(Skip(more[1..]))
        case Fail => Fail
        case Got(members, rest') => Got([member] + members, rest')
  }

  function ParseMember(s: string): (r: Parsed<Member>)
    ensures r.Got? ==> |r.rest| < |s|
    decreases |s|, 1
  {
    if s == "" || s[0] != '\"' then Fail
    else match ParseString(s[1..])
      case Fail => Fail
      case Got(key, rest) =>
        var colon := Skip(rest);
        if colon == "" || colon[0] != ':' then Fail
        else match ParseValue(Skip(colon[1..]))
          case Fail => Fail
          case Got(value, rest') => Got(Member(key, value), rest')
  }

  /** A whole text: one value and nothing but white space after it. */
  function Parse(s: string): Option<Json> {
    match ParseValue(Skip(s))
    case Fail => None
    case Got(j, rest) => if Skip(rest) == "" then Some(j) else None
  }

  // ---------------------------------------------------------------- round trip

  lemma HexDigitValue(d: nat)
    requires d < 16
    ensures HexValue(HexDigit(d)) == Some(d)
  {
  }

  lemma Hex4Parses(n: nat)
    requires n < 0x1_0000
    ensures ParseHex4(Hex4(n)) == Some(n)
  {
    HexDigitValue(n / 16 / 16 / 16);
    HexDigitValue(n / 16 / 16 % 16);
    HexDigitValue(n / 16 % 16);
    HexDigitValue(n % 16);
  }

  lemma EscapedCharParses(c: char, rest: string)
    ensures ParseChar(EscapeChar(c) + rest) == Got(c, rest)
    ensures EscapeChar(c)[0] != '\"'
  {
    var s := EscapeChar(c) + rest;
    if s[0] == '\\' && s[1] == 'u' {
      Hex4Parses(c as int);
      assert s[2..6] == Hex4(c as int);
      assert s[6..] == rest;
    } else if s[0] == '\\' {
      assert s[2..] == rest;
    } else {
      assert s[1..] == rest;
    }
  }

  lemma {:induction false} EscapedStringParses(t: string, rest: string)
    ensures ParseString(Escape(t) + ("\"" + rest)) == Got(t, rest)
  {
    var end := "\"" + rest;
    if t == "" {
      assert Escape(t) + end == end;
      assert end[1..] == rest;
    } else {
      var tail := Escape(t[1..]) + end;
      assert Escape(t) + end == EscapeChar(t[0]) + tail;
      EscapedStringParses(t[1..], rest);
      EscapedCharThen(t[0], tail, t[1..], rest);
      assert [t[0]] + t[1..] == t;
    }
  }

  lemma EscapedCharThen(c: char, tail: string, t: string, rest: string)
    requires ParseString(tail) == Got(t, rest)
    ensures ParseString(EscapeChar(c) + tail) == Got([c] + t, rest)
  {
    EscapedCharParses(c, tail);
  }

  lemma QuoteParses(t: string, rest: string)
    ensures Quote(t) + rest != "" && (Quote(t) + rest)[0] == '\"'
    ensures ParseString((Quote(t) + rest)[1..]) == Got(t, rest)
  {
    assert (Quote(t) + rest)[1..] == Escape(t) + ("\"" + rest);
    EscapedStringParses(t, rest);
  }

  lemma {:induction false} PrintedValueParses(j: Json, rest: string)
    ensures ParseValue(Print(j) + rest) == Got(j, rest)
    decreases j, 1
  {
    match j
    case Null =>
      assert (Print(j) + rest)[..4] == "null" && (Print(j) + rest)[4..] == rest;
    case Str(t) =>
      QuoteParses(t, rest);
    case Arr(items) =>
      PrintedArrayParses(items, rest);
    case Obj(members) =>
      PrintedObjectParses(members, rest);
  }

  lemma {:induction false} PrintedArrayParses(items: seq<Json>, rest: string)
    ensures ParseValue(Print(Arr(items)) + rest) == Got(Arr(items), rest)
    decreases items, 1
  {
    var body := (if items == [] then "]" else PrintItems(items)) + rest;
    BracketParses("[", body, Print(Arr(items)) + rest);
    if items == [] {
      assert body[1..] == rest;
    } else {
      PrintedItemsParse(items, rest);
    }
  }

  lemma {:induction false} PrintedObjectParses(members: seq<Member>, rest: string)
    ensures ParseValue(Print(Obj(members)) + rest) == Got(Obj(members), rest)
    decreases members, 1
  {
    var body := (if members == [] then "}" else PrintMembers(members)) + rest;
    BracketParses("{", body, Print(Obj(members)) + rest);
    if members == [] {
      assert body[1..] == rest;
    } else {
      PrintedMembersParse(members, rest);
    }
  }

  lemma BracketParses(open: string, body: string, s: string)
    requires |open| == 1 && body != "" && !IsSpace(body[0])
    requires s == open + body
    ensures s[0] == open[0] && Skip(s[1..]) == body
  {
    assert s[1..] == body;
  }

  lemma {:induction false} PrintedItemsParse(items: seq<Json>, rest: string)
    requires items != []
    ensures ParseItems(PrintItems(items) + rest) == Got(items, rest)
    decreases items, 0
  {
    var item := Print(items[0]);
    if |items| == 1 {
      assert PrintItems(items) + rest == item + ("]" + rest);
      PrintedValueParses(items[0], "]" + rest);
      LastItemParses(item + ("]" + rest), items[0], rest);
      assert [items[0]] == items;
    } else {
      var more := PrintItems(items[1..]) + rest;
      SplitItems(items, rest);
      PrintedValueParses(items[0], "," + more);
      PrintedItemsParse(items[1..], rest);
      NextItemParses(item + ("," + more), items[0], more, items[1..], rest);
      assert [items[0]] + items[1..] == items;
    }
  }

  lemma SplitItems(items: seq<Json>, rest: string)
    requires |items| > 1
    ensures PrintItems(items) + rest == Print(items[0]) + ("," + (PrintItems(items[1..]) + rest))
  {
  }

  lemma SplitMembers(members: seq<Member>, rest: string)
    requires |members| > 1
    ensures PrintMembers(members) + rest == PrintMember(members[0]) + ("," + (PrintMembers(members[1..]) + rest))
  {
  }

  lemma LastItemParses(s: string, item: Json, rest: string)
    requires ParseValue(s) == Got(item, "]" + rest)
    ensures ParseItems(s) == Got([item], rest)
  {
    assert ("]" + rest)[1..] == rest;
  }

  lemma NextItemParses(s: string, item: Json, more: string, items: seq<Json>, rest: string)
    requires ParseValue(s) == Got(item, "," + more)
    requires more != "" && !IsSpace(more[0]) && ParseItems(more) == Got(items, rest)
    ensures ParseItems(s) == Got([item] + items, rest)
  {
    assert ("," + more)[1..] == more;
  }

  lemma {:induction false} PrintedMembersParse(members: seq<Member>, rest: string)
    requires members != []
    ensures ParseMembers(PrintMembers(members) + rest) == Got(members, rest)
    decreases members, 0
  {
    var member := PrintMember(members[0]);
    if |members| == 1 {
      assert PrintMembers(members) + rest == member + ("}" + rest);
      PrintedMemberParses(members[0], "}" + rest);
      LastMemberParses(member + ("}" + rest), members[0], rest);
      assert [members[0]] == members;
    } else {
      var more := PrintMembers(members[1..]) + rest;
      SplitMembers(members, rest);
      PrintedMemberParses(members[0], "," + more);
      PrintedMembersParse(members[1..], rest);
      NextMemberParses(member + ("," + more), members[0], more, members[1..], rest);
      assert [members[0]] + members[1..] == members;
    }
  }

  lemma LastMemberParses(s: string, member: Member, rest: string)
    requires ParseMember(s) == Got(member, "}" + rest)
    ensures ParseMembers(s) == Got([member], rest)
  {
    assert ("}" + rest)[1..] == rest;
  }

  lemma NextMemberParses(s: string, member: Member, more: string, members: seq<Member>, rest: string)
    requires ParseMember(s) == Got(member, "," + more)
    requires more != "" && !IsSpace(more[0]) && ParseMembers(more) == Got(members, rest)
    ensures ParseMembers(s) == Got([member] + members, rest)
  {
    assert ("," + more)[1..] == more;
  }

  lemma {:induction false} PrintedMemberParses(m: Member, rest: string)
    ensures ParseMember(PrintMember(m) + rest) == Got(m, rest)
    decreases m, 2
  {
    var value := Print(m.value) + rest;
    var colon := ":" + value;
    assert PrintMember(m) + rest == Quote(m.key) + colon;
    QuoteParses(m.key, colon);
    BracketParses(":", value, colon);
    PrintedValueParses(m.value, rest);
  }

  /** Parsing undoes printing, for every value: equal texts mean equal values. */
  lemma PrintParses(j: Json)
    ensures Parse(Print(j)) == Some(j)
  {
    PrintedValueParses(j, "");
    assert Print(j) + "" == Print(j);
  }

  /** White space around a printed value is skipped, and anything else after it makes the text unreadable. */
  lemma WholeTextParses(j: Json, rest: string)
    ensures Parse(" " + (Print(j) + rest)) == Parse(Print(j) + rest) ==
              if Skip(rest) == "" then Some(j) else None
    ensures Skip(" ") == ""
  {
    PrintedValueParses(j, rest);
    var s := " " + (Print(j) + rest);
    assert s[1..] == Print(j) + rest;
    assert !IsSpace((Print(j) + rest)[0]);
  }

  // ---------------------------------------------------------------- the exact text

  predicate Plain(c: char) {
    ' ' <= c && c != '\"' && c != '\\' && c != '<' && c != '>' && c != '&' && c != '\U{2028}' && c != '\U{2029}'
  }

  /** A text without special characters is printed as it is, between quotes. */
  lemma {:induction false} PlainText(t: string)
    requires forall c :: c in t ==> Plain(c)
    ensures Escape(t) == t && Quote(t) == "\"" + t + "\""
  {
    if t != "" {
      PlainText(t[1..]);
      assert t[0] in t;
      assert [t[0]] + t[1..] == t;
    }
  }

  /** The special characters are printed as encoding/json prints them. */
  lemma SpecialText()
    ensures EscapeChar('\"') == "\\\"" && EscapeChar('\\') == "\\\\"
    ensures EscapeChar('\n') == "\\n" && EscapeChar('\r') == "\\r" && EscapeChar('\t') == "\\t"
    ensures EscapeChar('<') == "\\u003c" && EscapeChar('>') == "\\u003e" && EscapeChar('&') == "\\u0026"
    ensures EscapeChar(1 as char) == "\\u0001" && EscapeChar('\U{2028}') == "\\u2028"
  {
  }
}
