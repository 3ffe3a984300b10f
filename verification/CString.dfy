/** Strings printed with C escapes and read back by the command line's tokeniser, in place. */
module CString {
  import opened ByteStrings
  import opened Wrappers

  const NUL: Byte := 0
  const TAB: Byte := 9
  const LF: Byte := 10
  const CR: Byte := 13
  const SPACE: Byte := 32
  const QUOTE: Byte := 34
  const APOSTROPHE: Byte := 39
  const ZERO: Byte := 48
  const BACKSLASH: Byte := 92
  const MAX_ARGS: nat := 50

  predicate NulFree(s: Text) {
    NUL !in s
  }

  predicate IsPrint(c: Byte) {
    32 <= c <= 126
  }

  predicate IsOctal(c: Byte) {
    48 <= c <= 55
  }

  // ----- Printing

  /** One character as it is printed. */
  function Unit(c: Byte): Text {
    if c == BACKSLASH then [BACKSLASH, BACKSLASH]
    else if c == QUOTE then [BACKSLASH, QUOTE]
    else if c == TAB then [BACKSLASH, 116]
    else if c == LF then [BACKSLASH, 110]
    else if c == CR then [BACKSLASH, 114]
    else if !IsPrint(c) then [BACKSLASH, ZERO + c / 64, ZERO + c / 8 % 8, ZERO + c % 8]
    else [c]
  }

  function Printed(z: Text): Text {
    if z == [] then [] else Unit(z[0]) + Printed(z[1..])
  }

  function Literal(z: Text): Text {
    [QUOTE] + Printed(z) + [QUOTE]
  }

  lemma {:induction false} PrintedNext(z: Text, i: nat)
    requires i < |z|
    ensures Printed(z[..i + 1]) == Printed(z[..i]) + Unit(z[i])
    decreases i
  {
    if i == 0 {
      assert z[..1] == [z[0]] && z[..0] == [];
      assert [z[0]][1..] == [];
    } else {
      PrintedNext(z[1..], i - 1);
      assert z[1..][..i] == z[..i + 1][1..] && z[1..][..i - 1] == z[..i][1..];
      assert Unit(z[0]) + (Printed(z[1..][..i - 1]) + Unit(z[i])) == Unit(z[0]) + Printed(z[1..][..i - 1]) + Unit(z[i]);
    }
  }

  method OutputChar(c: Byte) returns (out: Text)
    ensures out == Unit(c)
  {
    if c == BACKSLASH {
      out := [c, c];
    } else if c == QUOTE {
      out := [BACKSLASH, QUOTE];
    } else if c == TAB {
      out := [BACKSLASH, 116];
    } else if c == LF {
      out := [BACKSLASH, 110];
    } else if c == CR {
      out := [BACKSLASH, 114];
    } else if !IsPrint(c) {
      out := [BACKSLASH, ZERO + c / 64, ZERO + c / 8 % 8, ZERO + c % 8];
    } else {
      out := [c];
    }
  }

  /** Prints a string, the characters before its terminator, in quotes. */
  method OutputCString(z: Text) returns (out: Text)
    requires NulFree(z)
    ensures out == Literal(z)
  {
    out := [QUOTE];
    for i := 0 to |z|
      invariant out == [QUOTE] + Printed(z[..i])
    {
      PrintedNext(z, i);
      var unit := OutputChar(z[i]);
      assert [QUOTE] + Printed(z[..i]) + unit == [QUOTE] + (Printed(z[..i]) + unit);
      out := out + unit;
    }
    assert z[..|z|] == z;
    out := out + [QUOTE];
  }

  // ----- Resolving backslashes

  /** What a letter after a backslash stands for. */
  function Named(c: Byte): Byte {
    if c == 97 then 7
    else if c == 98 then 8
    else if c == 116 then 9
    else if c == 110 then 10
    else if c == 118 then 11
    else if c == 102 then 12
    else if c == 114 then 13
    else c
  }

  /** What the comment in front of the loop lists for a letter or a mark after a backslash. */
  function Listed(c: Byte): Option<Byte> {
    if c == 97 then Some(7)
    else if c == 98 then Some(8)
    else if c == 116 then Some(TAB)
    else if c == 110 then Some(LF)
    else if c == 118 then Some(11)
    else if c == 102 then Some(12)
    else if c == 114 then Some(CR)
    else if c == 115 then Some(SPACE)
    else if c == QUOTE || c == APOSTROPHE || c == BACKSLASH then Some(c)
    else None
  }

  /** An escape that the comment lists resolves as listed, unless it is the one for a blank. */
  lemma ResolvesAsListed(c: Byte, more: Text)
    requires Listed(c).Some?
    ensures Resolved([BACKSLASH, c] + more) == [Listed(c).value] + Resolved(more) <==> c != 115
  {
    var s := [BACKSLASH, c] + more;
    assert s[2..] == more;
    assert First(s) == (Named(c), 2);
    assert Resolved(s)[0] == Named(c);
    assert ([Listed(c).value] + Resolved(more))[0] == Listed(c).value;
  }

  /** The character at the start of `s`, and how many characters of `s` it takes up. */
  function First(s: Text): (r: (Byte, nat))
    requires s != []
    ensures 1 <= r.1 <= |s|
  {
    if s[0] != BACKSLASH || |s| == 1 then (s[0], 1)
    else if !IsOctal(s[1]) then (Named(s[1]), 2)
    else if |s| == 2 || !IsOctal(s[2]) then (s[1] - ZERO, 2)
    else
      var two := (s[1] - ZERO) * 8 + s[2] - ZERO;
      if |s| == 3 || !IsOctal(s[3]) then (two, 3) else ((two * 8 + s[3] - ZERO) % 256, 4)
  }

  function Resolved(s: Text): Text
    decreases |s|
  {
    if s == [] then [] else [First(s).0] + Resolved(s[First(s).1..])
  }

  lemma {:induction false} ResolvedShrinks(s: Text)
    ensures |Resolved(s)| <= |s|
    decreases |s|
  {
    if s != [] {
      ResolvedShrinks(s[First(s).1..]);
    }
  }

  lemma {:induction false} NothingToResolve(s: Text, k: nat)
    requires k <= |s| && BACKSLASH !in s[..k]
    ensures Resolved(s) == s[..k] + Resolved(s[k..])
    decreases k
  {
    if k == 0 {
      assert s[0..] == s;
    } else {
      assert s[0] == s[..k][0];
      assert s[1..][..k - 1] == s[..k][1..] && s[1..][k - 1..] == s[k..];
      NothingToResolve(s[1..], k - 1);
    }
  }

  lemma HeadAndTail<T>(s: seq<T>, t: seq<T>)
    requires s != []
    ensures [s[0]] + (s[1..] + t) == s + t
  {}

  /** Escapes of a printed string resolve to the string. */
  lemma {:induction false} PrintedResolves(z: Text, rest: Text)
    ensures Resolved(Printed(z) + rest) == z + Resolved(rest)
    decreases z
  {
    if z == [] {
      assert Printed(z) + rest == rest;
    } else {
      var more := Printed(z[1..]) + rest;
      assert Printed(z) + rest == Unit(z[0]) + more;
      UnitFirst(z[0], more);
      PrintedResolves(z[1..], rest);
      HeadAndTail(z, Resolved(rest));
    }
  }

  lemma UnitFirst(c: Byte, more: Text)
    ensures Resolved(Unit(c) + more) == [c] + Resolved(more)
  {
    UnitResolves(c, more);
    assert (Unit(c) + more)[|Unit(c)|..] == more;
  }

  lemma UnitResolves(c: Byte, more: Text)
    ensures First(Unit(c) + more) == (c, |Unit(c)|)
  {
    var s := Unit(c) + more;
    if !IsPrint(c) && c != TAB && c != LF && c != CR {
      assert s[1] == ZERO + c / 64 && s[2] == ZERO + c / 8 % 8 && s[3] == ZERO + c % 8;
    }
  }

  // ----- Tokens

  /** Where the blanks at the start of `s` end. */
  function Blanks(s: Text): (k: nat)
    ensures k <= |s|
  {
    if s != [] && IsSpace(s[0]) then 1 + Blanks(s[1..]) else 0
  }

  /** The length of the word at the start of `s`. */
  function Word(s: Text): (k: nat)
    ensures k <= |s|
  {
    if s != [] && !IsSpace(s[0]) then 1 + Word(s[1..]) else 0
  }

  /** The length of the quoted text up to its closing quote: inside double quotes a backslash hides what follows. */
  function QuotedLength(s: Text, delim: Byte): (k: nat)
    ensures k <= |s|
    decreases |s|
  {
    if s == [] || s[0] == delim then 0
    else if s[0] == BACKSLASH && delim == QUOTE && |s| > 1 then 2 + QuotedLength(s[2..], delim)
    else 1 + QuotedLength(s[1..], delim)
  }

  /** The token at the start of `s`, and where the rest begins. */
  function Token(s: Text): (r: (Text, nat))
    requires s != [] && !IsSpace(s[0])
    ensures 1 <= r.1 <= |s|
  {
    if s[0] == APOSTROPHE || s[0] == QUOTE then
      var k := QuotedLength(s[1..], s[0]);
      var inside := s[1..1 + k];
      (if s[0] == QUOTE then Resolved(inside) else inside, if 1 + k < |s| then 2 + k else 1 + k)
    else
      var k := Word(s);
      (Resolved(s[..k]), if k < |s| then k + 1 else k)
  }

  /** The tokens of a line, no more than `room`. */
  function Tokens(s: Text, room: nat): seq<Text>
    decreases |s|, room
  {
    var t := s[Blanks(s)..];
    if room == 0 || t == [] then []
    else
      NotBlank(s);
      [Token(t).0] + Tokens(t[Token(t).1..], room - 1)
  }

  lemma {:induction false} NotBlank(s: Text)
    ensures Blanks(s) < |s| ==> !IsSpace(s[Blanks(s)])
  {
    if s != [] && IsSpace(s[0]) {
      NotBlank(s[1..]);
    }
  }

  // ----- What is printed is read back

  lemma {:induction false} PrintedLength(z: Text, rest: Text)
    requires rest != [] && rest[0] == QUOTE
    ensures QuotedLength(Printed(z) + rest, QUOTE) == |Printed(z)|
    decreases z
  {
    if z == [] {
      assert Printed(z) + rest == rest;
    } else {
      var more := Printed(z[1..]) + rest;
      assert Printed(z) + rest == Unit(z[0]) + more;
      PrintedLength(z[1..], rest);
      UnitLength(z[0], more);
    }
  }

  lemma UnitLength(c: Byte, more: Text)
    ensures QuotedLength(Unit(c) + more, QUOTE) == |Unit(c)| + QuotedLength(more, QUOTE)
  {
    var s := Unit(c) + more;
    if |Unit(c)| == 1 {
      assert s[1..] == more;
    } else if |Unit(c)| == 2 {
      assert s[2..] == more;
    } else {
      var t, u := s[2..], s[2..][1..];
      assert t == [ZERO + c / 8 % 8, ZERO + c % 8] + more && u == [ZERO + c % 8] + more && u[1..] == more;
      assert QuotedLength(s, QUOTE) == 2 + QuotedLength(t, QUOTE);
      assert QuotedLength(t, QUOTE) == 1 + QuotedLength(u, QUOTE);
      assert QuotedLength(u, QUOTE) == 1 + QuotedLength(more, QUOTE);
    }
  }

  lemma LiteralIsToken(z: Text, rest: Text)
    ensures var s := Literal(z) + rest;
      Token(s).0 == z && Token(s).1 == |Literal(z)|
  {
    var s := Literal(z) + rest;
    assert s[1..] == Printed(z) + ([QUOTE] + rest);
    PrintedLength(z, [QUOTE] + rest);
    var k := |Printed(z)|;
    assert s[1..1 + k] == Printed(z);
    PrintedResolves(z, []);
    assert Printed(z) + [] == Printed(z) && z + [] == z;
  }

  /** The strings, printed and separated by blanks. */
  function Line(args: seq<Text>): Text
    decreases |args|, 0
  {
    if args == [] then [] else Literal(args[0]) + MoreOfLine(args[1..])
  }

  function MoreOfLine(args: seq<Text>): Text
    decreases |args|, 1
  {
    if args == [] then [] else [SPACE] + Line(args)
  }

  lemma LiteralFirst(z: Text, tail: Text, room: nat)
    requires room > 0
    ensures Tokens(Literal(z) + tail, room) == [z] + Tokens(tail, room - 1)
  {
    var s := Literal(z) + tail;
    assert s[0] == QUOTE && Blanks(s) == 0 && s[0..] == s;
    LiteralIsToken(z, tail);
    assert s[|Literal(z)|..] == tail;
  }

  /** The C-string round trip: any strings, printed and separated by blanks, are recovered exactly, as many
      of them as there is room for. */
  lemma {:induction false} LineReadsBack(args: seq<Text>, room: nat)
    ensures Tokens(Line(args), room) == if |args| <= room then args else args[..room]
    decreases args
  {
    hide Tokens, Literal, MoreOfLine;
    if args == [] {
      NoTokens(room);
    } else if room == 0 {
      NoRoom(Line(args));
    } else {
      var rest := args[1..];
      LineReadsBack(rest, room - 1);
      LineStep(args[0], rest, room);
      assert [args[0]] + rest == args;
      assert |rest| > room - 1 ==> [args[0]] + rest[..room - 1] == args[..room];
    }
  }

  lemma NoRoom(s: Text)
    ensures Tokens(s, 0) == []
  {}

  lemma LineStep(first: Text, rest: seq<Text>, room: nat)
    requires room > 0
    ensures Tokens(Literal(first) + MoreOfLine(rest), room) == [first] + Tokens(Line(rest), room - 1)
  {
    LiteralFirst(first, MoreOfLine(rest), room);
    MoreTokens(rest, room - 1);
  }

  lemma MoreTokens(args: seq<Text>, room: nat)
    ensures Tokens(MoreOfLine(args), room) == Tokens(Line(args), room)
  {
    if args != [] {
      assert Line(args) != [] && Line(args)[0] == QUOTE;
      OneBlank(Line(args), room);
    }
  }

  lemma NoTokens(room: nat)
    ensures Tokens([], room) == []
  {}

  lemma OneBlank(rest: Text, room: nat)
    requires rest != [] && rest[0] == QUOTE
    ensures Tokens([SPACE] + rest, room) == Tokens(rest, room)
  {
    var s := [SPACE] + rest;
    assert s[1..] == rest;
    assert Blanks(rest) == 0 && Blanks(s) == 1 && rest[0..] == rest;
  }

  // ----- Lines of words and quoted texts

  /** A token as it may stand in a line: as it is, between single quotes, or as a printed C string. */
  datatype Item = Bare(text: Text) | Single(text: Text) | Double(text: Text)

  function Shown(item: Item): Text {
    match item
    case Bare(text) => text
    case Single(text) => [APOSTROPHE] + text + [APOSTROPHE]
    case Double(text) => Literal(text)
  }

  predicate BlankOnly(s: Text) {
    forall c | c in s :: 9 <= c <= 13 || c == 32
  }

  /** What can stand there: bare texts are not empty, do not start with a quote, and have no blank and no backslash;
      between single quotes there can be anything but another one. */
  predicate CanStand(item: Item) {
    match item
    case Bare(text) =>
      && text != [] && text[0] != 34 && text[0] != 39
      && forall c | c in text :: !(9 <= c <= 13) && c != 32 && c != 92
    case Single(text) => 39 !in text
    case Double(_) => true
  }

  /** Items, each with the blanks after it. */
  function ItemLine(items: seq<(Item, Text)>): Text {
    if items == [] then [] else Shown(items[0].0) + (items[0].1 + ItemLine(items[1..]))
  }

  function ItemTexts(items: seq<(Item, Text)>): (texts: seq<Text>)
    ensures |texts| == |items| && forall k | 0 <= k < |items| :: texts[k] == items[k].0.text
  {
    if items == [] then [] else [items[0].0.text] + ItemTexts(items[1..])
  }

  /** There are only blanks between the items, and at least one after a bare one that is not the last. */
  predicate Spaced(items: seq<(Item, Text)>) {
    && (forall k | 0 <= k < |items| :: CanStand(items[k].0) && BlankOnly(items[k].1))
    && (forall k | 0 <= k < |items| - 1 :: items[k].0.Bare? ==> items[k].1 != [])
  }

  lemma {:induction false} BlanksOver(gap: Text, s: Text)
    requires BlankOnly(gap)
    ensures Blanks(gap + s) == |gap| + Blanks(s)
  {
    if gap == [] {
      assert gap + s == s;
    } else {
      assert gap[0] in gap && (gap + s)[1..] == gap[1..] + s;
      assert forall c | c in gap[1..] :: c in gap;
      BlanksOver(gap[1..], s);
    }
  }

  lemma TokensOver(gap: Text, s: Text, room: nat)
    requires BlankOnly(gap)
    ensures Tokens(gap + s, room) == Tokens(s, room)
  {
    BlanksOver(gap, s);
    assert (gap + s)[|gap| + Blanks(s)..] == s[Blanks(s)..];
  }

  lemma {:induction false} WordIs(text: Text, rest: Text)
    requires forall c | c in text :: !IsSpace(c)
    requires rest == [] || IsSpace(rest[0])
    ensures Word(text + rest) == |text|
  {
    if text == [] {
      assert text + rest == rest;
    } else {
      assert text[0] in text && (text + rest)[1..] == text[1..] + rest;
      WordIs(text[1..], rest);
    }
  }

  lemma {:induction false} QuotedIs(text: Text, rest: Text)
    requires APOSTROPHE !in text && (rest == [] || rest[0] == APOSTROPHE)
    ensures QuotedLength(text + rest, APOSTROPHE) == |text|
  {
    if text == [] {
      assert text + rest == rest;
    } else {
      assert text[0] in text && (text + rest)[1..] == text[1..] + rest;
      QuotedIs(text[1..], rest);
    }
  }

  lemma PlainText(text: Text)
    requires BACKSLASH !in text
    ensures Resolved(text) == text
  {
    assert text[..|text|] == text && text[|text|..] == [];
    NothingToResolve(text, |text|);
  }

  lemma FirstToken(s: Text, room: nat, text: Text, count: nat, rest: Text)
    requires room > 0 && s != [] && !IsSpace(s[0])
    requires Token(s) == (text, count) && s[count..] == rest
    ensures Tokens(s, room) == [text] + Tokens(rest, room - 1)
  {
    assert Blanks(s) == 0 && s[0..] == s;
  }

  lemma BareFirst(text: Text, rest: Text, room: nat)
    requires room > 0 && CanStand(Bare(text)) && (rest == [] || BlankOnly(rest[..1]))
    ensures Tokens(text + rest, room) == [text] + Tokens(rest, room - 1)
  {
    var s := text + rest;
    assert text[0] in text && s[0] == text[0];
    assert rest != [] ==> rest[0] in rest[..1];
    WordIs(text, rest);
    assert s[..|text|] == text;
    PlainText(text);
    if rest == [] {
      assert s[|text|..] == [];
      FirstToken(s, room, text, |text|, []);
    } else {
      assert s[|text| + 1..] == rest[1..];
      FirstToken(s, room, text, |text| + 1, rest[1..]);
      TokensOver(rest[..1], rest[1..], room - 1);
      assert rest[..1] + rest[1..] == rest;
    }
  }

  lemma SingleFirst(text: Text, rest: Text, room: nat)
    requires room > 0 && APOSTROPHE !in text
    ensures Tokens([APOSTROPHE] + text + [APOSTROPHE] + rest, room) == [text] + Tokens(rest, room - 1)
  {
    var s := [APOSTROPHE] + text + [APOSTROPHE] + rest;
    assert s[1..] == text + ([APOSTROPHE] + rest);
    QuotedIs(text, [APOSTROPHE] + rest);
    assert s[1..1 + |text|] == text && s[2 + |text|..] == rest;
    FirstToken(s, room, text, 2 + |text|, rest);
  }

  /** Quotes that are not closed reach to the end of the line. */
  lemma UnclosedQuotes(text: Text, room: nat)
    requires room > 0
    ensures APOSTROPHE !in text ==> Tokens([APOSTROPHE] + text, room) == [text]
    ensures Tokens([QUOTE] + Printed(text), room) == [text]
  {
    if APOSTROPHE !in text {
      assert text + [] == text;
      QuotedIs(text, []);
      ToTheEnd(APOSTROPHE, text, text, room);
    }
    assert Printed(text) + [] == Printed(text) && text + [] == text;
    PrintedToEnd(text);
    PrintedResolves(text, []);
    ToTheEnd(QUOTE, Printed(text), text, room);
  }

  lemma ToTheEnd(delim: Byte, inside: Text, text: Text, room: nat)
    requires room > 0 && delim in {APOSTROPHE, QUOTE} && QuotedLength(inside, delim) == |inside|
    requires text == if delim == QUOTE then Resolved(inside) else inside
    ensures Tokens([delim] + inside, room) == [text]
  {
    hide Tokens, QuotedLength, Resolved;
    var s := [delim] + inside;
    assert s[1..] == inside && s[1..1 + |inside|] == inside && s[1 + |inside|..] == [];
    FirstToken(s, room, text, 1 + |inside|, []);
    NoTokens(room - 1);
  }

  lemma {:induction false} PrintedToEnd(z: Text)
    ensures QuotedLength(Printed(z), QUOTE) == |Printed(z)|
    decreases z
  {
    if z != [] {
      PrintedToEnd(z[1..]);
      UnitLength(z[0], Printed(z[1..]));
    }
  }

  lemma ItemFirst(item: Item, rest: Text, room: nat)
    requires room > 0 && CanStand(item) && (item.Bare? ==> rest == [] || BlankOnly(rest[..1]))
    ensures Tokens(Shown(item) + rest, room) == [item.text] + Tokens(rest, room - 1)
  {
    match item
    case Bare(text) => BareFirst(text, rest, room);
    case Single(text) => SingleFirst(text, rest, room);
    case Double(text) => LiteralFirst(text, rest, room);
  }

  /** Words, singly quoted texts and printed C strings, in any mixture and separated by any blanks, are taken off
      the line exactly, as many of them as there is room for. */
  lemma {:induction false} ItemsReadBack(lead: Text, items: seq<(Item, Text)>, room: nat)
    requires BlankOnly(lead) && Spaced(items)
    ensures Tokens(lead + ItemLine(items), room)
         == if |items| <= room then ItemTexts(items) else ItemTexts(items)[..room]
    decreases |items|
  {
    hide Tokens, Shown, CanStand;
    var line := ItemLine(items);
    TokensOver(lead, line, room);
    if items == [] {
      NoTokens(room);
    } else if room == 0 {
      NoRoom(line);
    } else {
      var (item, gap) := items[0];
      var rest := items[1..];
      ItemsReadBack(gap, rest, room - 1);
      AfterItem(items);
      ItemFirst(item, gap + ItemLine(rest), room);
      var texts := ItemTexts(rest);
      assert ItemTexts(items) == [item.text] + texts;
      assert |rest| > room - 1 ==> [item.text] + texts[..room - 1] == ItemTexts(items)[..room];
    }
  }

  lemma AfterItem(items: seq<(Item, Text)>)
    requires items != [] && Spaced(items)
    ensures Spaced(items[1..])
    ensures var after := items[0].1 + ItemLine(items[1..]);
      items[0].0.Bare? ==> after == [] || BlankOnly(after[..1])
  {
    var (item, gap) := items[0];
    if item.Bare? && gap != [] {
      assert (gap + ItemLine(items[1..]))[..1] == [gap[0]] && gap[0] in gap;
    }
  }

  // ----- What other escapes resolve to

  /** The number with these octal digits. */
  function OctalNumber(digits: Text): int {
    if digits == [] then 0 else 8 * OctalNumber(digits[..|digits| - 1]) + digits[|digits| - 1] - 48
  }

  /** One to three octal digits are a number, modulo 256. */
  lemma OctalResolves(digits: Text, more: Text)
    requires 1 <= |digits| <= 3 && forall k | 0 <= k < |digits| :: 48 <= digits[k] <= 55
    requires |digits| == 3 || more == [] || !(48 <= more[0] <= 55)
    ensures var n := OctalNumber(digits) % 256;
      0 <= n < 256 && Resolved([BACKSLASH] + digits + more) == [n] + Resolved(more)
  {
    hide OctalNumber;
    var s := [BACKSLASH] + digits + more;
    assert s[1..1 + |digits|] == digits && s[1 + |digits|..] == more;
    assert forall k | 0 <= k < |digits| :: s[k + 1] == digits[k];
    assert |digits| < 3 && more != [] ==> s[1 + |digits|] == more[0];
    OctalFirst(s, |digits|);
    ResolvedFirst(s);
  }

  lemma ResolvedFirst(s: Text)
    requires s != []
    ensures Resolved(s) == [First(s).0] + Resolved(s[First(s).1..])
  {}

  lemma OctalFirst(s: Text, count: nat)
    requires 1 <= count <= 3 && count < |s| && s[0] == BACKSLASH
    requires forall k | 1 <= k <= count :: IsOctal(s[k])
    requires count == 3 || count + 1 == |s| || !IsOctal(s[count + 1])
    ensures First(s) == (OctalNumber(s[1..1 + count]) % 256, 1 + count)
  {
    var one := s[1..2];
    assert one[..0] == [];
    assert OctalNumber(one) == s[1] - 48;
    if count >= 2 {
      assert s[1..3][..1] == one;
      assert OctalNumber(s[1..3]) == 8 * OctalNumber(one) + s[2] - 48;
    }
    if count == 3 {
      assert s[1..4][..2] == s[1..3];
      assert OctalNumber(s[1..4]) == 8 * OctalNumber(s[1..3]) + s[3] - 48;
    }
  }

  /** Before anything else, and at the end, a backslash is dropped or stays. */
  lemma OtherEscapes(c: Byte, more: Text)
    ensures !IsOctal(c) && (Listed(c).None? || c == 115) ==> Resolved([BACKSLASH, c] + more) == [c] + Resolved(more)
    ensures Resolved([BACKSLASH]) == [BACKSLASH]
  {
    var s := [BACKSLASH, c] + more;
    assert s[2..] == more;
    assert [BACKSLASH][1..] == [];
  }

  // ----- What is printed can be seen

  /** Printable, and neither a double quote nor a backslash. */
  predicate IsPlain(c: Byte) {
    32 <= c <= 126 && c != 34 && c != 92
  }

  lemma UnitIsPrintable(c: Byte)
    ensures forall k | 0 <= k < |Unit(c)| :: 32 <= Unit(c)[k] <= 126
    ensures if IsPlain(c) then Unit(c) == [c] else |Unit(c)| > 1
  {}

  /** How single characters are printed: tab, line feed and carriage return with their letters, double quotes and
      backslashes after a backslash, and others that are not printable as three octal digits. */
  lemma EscapesPrinted(c: Byte)
    ensures Unit(9) == [92, 116] && Unit(10) == [92, 110] && Unit(13) == [92, 114]
    ensures Unit(34) == [92, 34] && Unit(92) == [92, 92]
    ensures !(32 <= c <= 126) && c !in {9, 10, 13} ==>
              && |Unit(c)| == 4 && Unit(c)[0] == 92 && OctalNumber(Unit(c)[1..]) == c
              && forall k | 1 <= k < 4 :: 48 <= Unit(c)[k] <= 55
  {
    if !(32 <= c <= 126) && c !in {9, 10, 13} {
      var d := Unit(c)[1..];
      assert d[..2][..1] == [d[0]] && [d[0]][..0] == [];
      assert OctalNumber([d[0]]) == c / 64;
      assert OctalNumber(d[..2]) == 8 * (c / 64) + c / 8 % 8;
      assert OctalNumber(d) == 8 * OctalNumber(d[..2]) + c % 8;
    }
  }

  /** Only printable characters are printed. */
  lemma {:induction false} PrintedIsPrintable(z: Text)
    ensures forall k | 0 <= k < |Printed(z)| :: 32 <= Printed(z)[k] <= 126
  {
    if z != [] {
      hide Unit;
      UnitIsPrintable(z[0]);
      PrintedIsPrintable(z[1..]);
    }
  }

  /** A text is printed as it is if and only if it has no others, no double quote and no backslash. */
  lemma {:induction false} PrintedAsItIs(z: Text)
    ensures |Printed(z)| >= |z|
    ensures |Printed(z)| == |z| <==> forall k | 0 <= k < |z| :: IsPlain(z[k])
    ensures Printed(z) == z <==> forall k | 0 <= k < |z| :: IsPlain(z[k])
  {
    if z != [] {
      hide Unit, IsPlain;
      UnitIsPrintable(z[0]);
      PrintedAsItIs(z[1..]);
      assert forall k | 0 <= k < |z| - 1 :: z[1..][k] == z[k + 1];
      assert z == [z[0]] + z[1..];
      assert (forall k | 0 <= k < |z| :: IsPlain(z[k])) <==>
          IsPlain(z[0]) && forall k | 0 <= k < |z| - 1 :: IsPlain(z[1..][k]) by {
        if IsPlain(z[0]) && forall k | 0 <= k < |z| - 1 :: IsPlain(z[1..][k]) {
          forall k | 0 <= k < |z| ensures IsPlain(z[k]) {
            assert k > 0 ==> z[k] == z[1..][k - 1];
          }
        }
      }
    }
  }

  // ----- In place

  /** The position of the terminator of the string at `p`. */
  ghost function End(z: Text, p: nat): (e: nat)
    requires p < |z| && z[|z| - 1] == NUL
    ensures p <= e < |z| && z[e] == NUL && NulFree(z[p..e])
    decreases |z| - p
  {
    if z[p] == NUL then p
    else
      var e := End(z, p + 1);
      assert z[p..e] == [z[p]] + z[p + 1..e];
      e
  }

  /** The string that a pointer to position `p` stands for. */
  ghost function StringAt(z: Text, p: nat): Text
    requires p < |z| && z[|z| - 1] == NUL
  {
    z[p..End(z, p)]
  }

  lemma {:induction false} EndIs(z: Text, p: nat, e: nat)
    requires p <= e < |z| && z[|z| - 1] == NUL && z[e] == NUL && NulFree(z[p..e])
    ensures End(z, p) == e
    decreases e - p
  {
    if p < e {
      assert z[p..e][0] == z[p];
      assert z[p..e] == [z[p]] + z[p + 1..e];
      EndIs(z, p + 1, e);
    }
  }

  /** What the character after a backslash stands for, unless it is a digit. */
  method NamedEscape(letter: Byte) returns (c: Byte)
    ensures c == Named(letter)
  {
    c := letter;
    if c == 97 {
      c := 7;
    } else if c == 98 {
      c := 8;
    } else if c == 116 {
      c := 9;
    } else if c == 110 {
      c := 10;
    } else if c == 118 {
      c := 11;
    } else if c == 102 {
      c := 12;
    } else if c == 114 {
      c := 13;
    }
  }

  /** Up to three octal digits, the first of them at `i`, and the position of the last of them. */
  method OctalEscape(z: array<Byte>, i: nat, ghost e: nat) returns (c: Byte, last: nat)
    requires i < e < z.Length && z[e] == NUL && IsOctal(z[i])
    ensures i <= last < e
    ensures c == (if last == i then z[i] - ZERO
                  else if last == i + 1 then (z[i] - ZERO) * 8 + z[i + 1] - ZERO
                  else (((z[i] - ZERO) * 8 + z[i + 1] - ZERO) * 8 + z[i + 2] - ZERO) % 256)
    ensures last == if !IsOctal(z[i + 1]) then i else if !IsOctal(z[i + 2]) then i + 1 else i + 2
  {
    last := i;
    c := z[last] - ZERO;
    if IsOctal(z[last + 1]) {
      last := last + 1;
      c := c * 8 + z[last] - ZERO;
      if IsOctal(z[last + 1]) {
        last := last + 1;
        c := (c * 8 + z[last] - ZERO) % 256;
      }
    }
  }

  /** Resolves one escape, if there is one at `i`, into a character and the position of its last character. */
  method ResolveOne(z: array<Byte>, i: nat) returns (c: Byte, last: nat)
    requires Terminated(z[..]) && i < z.Length && z[i] != NUL
    ensures i <= last < End(z[..], i)
    ensures (c, last + 1 - i) == First(StringAt(z[..], i))
  {
    ghost var e, s := End(z[..], i), StringAt(z[..], i);
    assert forall k | i <= k < e :: z[k] == s[k - i] && z[k] != NUL;
    assert z[e] == NUL;
    c, last := z[i], i;
    if c == BACKSLASH && z[i + 1] != NUL {
      if IsOctal(z[i + 1]) {
        c, last := OctalEscape(z, i + 1, e);
      } else {
        c := NamedEscape(z[i + 1]);
        last := i + 1;
      }
    }
  }

  /** The first position from `p` on with a backslash, or the end of the string. */
  method FirstBackslash(z: array<Byte>, p: nat) returns (start: nat)
    requires Terminated(z[..]) && p < z.Length
    ensures p <= start <= End(z[..], p) && BACKSLASH !in z[p..start]
  {
    ghost var e := End(z[..], p);
    start := p;
    while z[start] != NUL && z[start] != BACKSLASH
      invariant p <= start <= e && BACKSLASH !in z[p..start]
      decreases e - start
    {
      assert start < e ==> z[start] == z[p..e][start - p];
      assert z[p..start + 1] == z[p..start] + [z[start]];
      start := start + 1;
    }
  }

  predicate Terminated(z: Text) {
    z != [] && z[|z| - 1] == NUL
  }

  /** The string at `p` is resolved where it stood: what is written ends within what was there, and nothing
      outside the string changes. */
  ghost predicate ResolvedAt(before: Text, after: Text, p: nat)
    requires Terminated(before) && p < |before|
  {
    var e, r := End(before, p), Resolved(StringAt(before, p));
    && |after| == |before| && Terminated(after)
    && after[..p] == before[..p] && after[e..] == before[e..]
    && p + |r| <= e && after[p..p + |r|] == r && after[p + |r|] == NUL
  }

  /** Halfway: the characters before `i` are resolved into those before `j`. */
  ghost predicate Halfway(before: Text, now: Text, p: nat, i: nat, j: nat)
    requires Terminated(before) && p < |before|
  {
    && |now| == |before| && p <= j <= i <= End(before, p)
    && now[..p] == before[..p] && now[i..] == before[i..]
    && now[p..j] + Resolved(StringAt(before, p)[i - p..]) == Resolved(StringAt(before, p))
  }

  lemma HalfwayStands(before: Text, now: Text, p: nat, i: nat, j: nat)
    requires Terminated(before) && p < |before| && Halfway(before, now, p, i, j)
    ensures Terminated(now) && End(now, i) == End(before, p)
  {
    StringFurtherOn(before, now, p, i);
  }

  lemma HalfwayNext(before: Text, now: Text, p: nat, i: nat, j: nat, c: Byte, count: nat)
    requires Terminated(before) && p < |before| && Halfway(before, now, p, i, j) && now[i] != NUL
    requires Terminated(now) && StringAt(now, i) != [] && First(StringAt(now, i)) == (c, count)
    ensures j + 1 <= i + count < |before| && Halfway(before, now[j := c], p, i + count, j + 1)
  {
    StringFurtherOn(before, now, p, i);
    var s, t := StringAt(before, p), StringAt(now, i);
    assert t[count..] == s[i + count - p..];
    var after := now[j := c];
    assert after[p..j + 1] == now[p..j] + [c];
    Associate(now[p..j], [c], Resolved(t[count..]));
    assert after[i + count..] == now[i..][count..] == before[i..][count..] == before[i + count..];
    assert after[..p] == now[..p];
  }

  lemma HalfwayDone(before: Text, now: Text, p: nat, i: nat, j: nat)
    requires Terminated(before) && p < |before| && Halfway(before, now, p, i, j) && now[i] == NUL
    ensures ResolvedAt(before, if j < i then now[j := NUL] else now, p)
  {
    StringFurtherOn(before, now, p, i);
    var s := StringAt(before, p);
    assert s[i - p..] == [];
    assert now[p..j] == Resolved(s);
    var after := if j < i then now[j := NUL] else now;
    assert after[p..j] == now[p..j] && after[..p] == now[..p] && after[i..] == now[i..];
    assert after[|after| - 1] == after[i..][|after| - 1 - i];
  }

  /** Resolves the character at `i` into the one at `j`. */
  method ResolveNext(z: array<Byte>, i: nat, j: nat) returns (next: nat)
    requires Terminated(z[..]) && j <= i < z.Length && z[i] != NUL
    modifies z
    ensures i < next && old(StringAt(z[..], i)) != []
    ensures First(old(StringAt(z[..], i))) == (z[j], next - i)
    ensures z[..] == old(z[..])[j := z[j]]
  {
    var c, last := ResolveOne(z, i);
    z[j] := c;
    next := last + 1;
  }

  /** Resolves the escapes of the string at `start` where it stands. What is written never gets ahead of what
      is read. */
  method ResolveFrom(z: array<Byte>, start: nat)
    requires Terminated(z[..]) && start < z.Length
    modifies z
    ensures ResolvedAt(old(z[..]), z[..], start)
  {
    hide Halfway, StringAt, First, ResolvedAt;
    ghost var before := z[..];
    var i: nat, j: nat := start, start;
    HalfwayStarts(before, start);
    while z[i] != NUL
      invariant j <= i < z.Length && Halfway(before, z[..], start, i, j)
      decreases |before| - i
    {
      HalfwayStands(before, z[..], start, i, j);
      ghost var now := z[..];
      var next := ResolveNext(z, i, j);
      HalfwayNext(before, now, start, i, j, z[j], next - i);
      i, j := next, j + 1;
    }
    HalfwayDone(before, z[..], start, i, j);
    ghost var now := z[..];
    if j < i {
      z[j] := NUL;
      assert z[..] == now[j := NUL];
    }
  }

  lemma HalfwayStarts(before: Text, p: nat)
    requires Terminated(before) && p < |before|
    ensures Halfway(before, before, p, p, p)
  {
    assert StringAt(before, p)[0..] == StringAt(before, p);
  }

  lemma Associate(a: Text, b: Text, c: Text)
    ensures a + (b + c) == a + b + c
  {}

  /** A string that is unchanged from `i` on. */
  lemma StringFurtherOn(before: Text, after: Text, p: nat, i: nat)
    requires |before| == |after| && p < |before| && Terminated(before)
    requires p <= i <= End(before, p) && after[i..] == before[i..]
    ensures Terminated(after) && End(after, i) == End(before, p)
    ensures StringAt(after, i) == StringAt(before, p)[i - p..]
    ensures after[i] == NUL ==> i == End(before, p)
  {
    var e := End(before, p);
    assert after[e] == after[i..][e - i] == before[i..][e - i];
    assert after[|after| - 1] == after[i..][|after| - 1 - i];
    assert after[i..e] == after[i..][..e - i] == before[i..e];
    assert before[i..e] == before[p..e][i - p..];
    EndIs(after, i, e);
  }

  lemma ResolvedFurtherOn(before: Text, after: Text, p: nat, start: nat)
    requires Terminated(before) && p <= start < |before| && start <= End(before, p)
    requires BACKSLASH !in before[p..start] && ResolvedAt(before, after, start)
    ensures ResolvedAt(before, after, p)
  {
    hide Resolved, StringAt;
    PlainStart(before, p, start);
    SameStart(before, after, p, start, Resolved(StringAt(before, start)));
  }

  /** Without a backslash before `start`, the text up to it resolves to itself. */
  lemma PlainStart(z: Text, p: nat, start: nat)
    requires Terminated(z) && p <= start < |z| && start <= End(z, p) && BACKSLASH !in z[p..start]
    ensures End(z, start) == End(z, p)
    ensures Resolved(StringAt(z, p)) == z[p..start] + Resolved(StringAt(z, start))
  {
    hide Resolved, NulFree, End;
    StringFurtherOn(z, z, p, start);
    SliceOfSlice(z, p, End(z, p), start - p);
    NothingToResolve(StringAt(z, p), start - p);
  }

  lemma SameStart(before: Text, after: Text, p: nat, start: nat, r: Text)
    requires p <= start && start + |r| <= |after| && |before| == |after|
    requires after[..start] == before[..start] && after[start..start + |r|] == r
    ensures after[..p] == before[..p]
    ensures after[p..start + |r|] == before[p..start] + r
  {
    assert after[..p] == after[..start][..p] && before[..p] == before[..start][..p];
    assert after[p..start] == after[..start][p..] == before[..start][p..] == before[p..start];
    assert after[p..start + |r|] == after[p..start] + after[start..start + |r|];
  }

  /** Resolves the escapes of the string at `p` where it stands. */
  method ResolveBackslashes(z: array<Byte>, p: nat)
    requires Terminated(z[..]) && p < z.Length
    modifies z
    ensures ResolvedAt(old(z[..]), z[..], p)
  {
    var start := FirstBackslash(z, p);
    ghost var before := z[..];
    assert before[p..start] == z[p..start];
    ResolveFrom(z, start);
    ResolvedFurtherOn(before, z[..], p, start);
  }

  // ----- Tokenising in place

  /** What a C string shows of a text. */
  function Cut(t: Text): Text {
    if t == [] || t[0] == NUL then [] else [t[0]] + Cut(t[1..])
  }

  lemma {:induction false} CutIs(t: Text, k: nat)
    requires k <= |t| && NulFree(t[..k]) && (k < |t| ==> t[k] == NUL)
    ensures Cut(t) == t[..k]
    decreases k
  {
    if k > 0 {
      assert t[0] == t[..k][0];
      assert t[1..][..k - 1] == t[..k][1..];
      CutIs(t[1..], k - 1);
    }
  }

  /** A token stands at `a`, and ends before `h`. */
  ghost predicate Stands(now: Text, h: nat, a: nat, token: Text)
    requires Terminated(now)
  {
    a < h <= |now| && End(now, a) < h && StringAt(now, a) == Cut(token)
  }

  /** The tokens so far stand before `h`, in front of the part of the line that is as it was. */
  ghost predicate TokensStand(now: Text, h: nat, args: seq<nat>, tokens: seq<Text>)
    requires Terminated(now)
  {
    && |args| == |tokens|
    && forall k {:trigger args[k]} | 0 <= k < |args| :: Stands(now, h, args[k], tokens[k])
  }

  lemma SliceOfPrefix(s: Text, p: nat, a: nat, e: nat)
    requires a <= e < p <= |s|
    ensures s[..p][a..e] == s[a..e] && s[..p][e] == s[e]
  {}

  /** A change from `p` on does not reach strings that end before it. */
  lemma StandsStill(before: Text, after: Text, a: nat, p: nat)
    requires Terminated(before) && Terminated(after) && |before| == |after| && a < p <= |before|
    requires End(before, a) < p && after[..p] == before[..p]
    ensures End(after, a) == End(before, a) && StringAt(after, a) == StringAt(before, a)
  {
    var e := End(before, a);
    SliceOfPrefix(before, p, a, e);
    SliceOfPrefix(after, p, a, e);
    EndIs(after, a, e);
  }

  lemma TokensStandStill(before: Text, after: Text, h: nat, args: seq<nat>, tokens: seq<Text>)
    requires Terminated(before) && Terminated(after) && |before| == |after| && TokensStand(before, h, args, tokens)
    requires h <= |before| && after[..h] == before[..h]
    ensures TokensStand(after, h, args, tokens)
  {
    forall k | 0 <= k < |args|
      ensures Stands(after, h, args[k], tokens[k])
    {
      assert Stands(before, h, args[k], tokens[k]);
      StandsStill(before, after, args[k], h);
    }
  }

  method SkipBlanks(z: array<Byte>, p: nat) returns (h: nat)
    requires Terminated(z[..]) && p < z.Length
    ensures p <= h <= End(z[..], p) && h == p + Blanks(StringAt(z[..], p))
  {
    h := p;
    ghost var e, s := End(z[..], p), StringAt(z[..], p);
    assert s[0..] == s;
    while IsSpace(z[h])
      invariant p <= h <= e && Blanks(s) == h - p + Blanks(s[h - p..])
      decreases e - h
    {
      assert z[h] == s[h - p];
      assert s[h - p..][1..] == s[h + 1 - p..];
      h := h + 1;
    }
    assert h < e ==> z[h] == s[h - p..][0];
  }

  method SkipWord(z: array<Byte>, p: nat) returns (h: nat)
    requires Terminated(z[..]) && p < z.Length
    ensures p <= h <= End(z[..], p) && h == p + Word(StringAt(z[..], p))
  {
    h := p;
    ghost var e, s := End(z[..], p), StringAt(z[..], p);
    assert s[0..] == s;
    while z[h] != NUL && !IsSpace(z[h])
      invariant p <= h <= e && Word(s) == h - p + Word(s[h - p..])
      decreases e - h
    {
      assert h < e ==> z[h] == s[h - p];
      assert s[h - p..][1..] == s[h + 1 - p..];
      h := h + 1;
    }
    assert h < e ==> z[h] == s[h - p..][0] && z[h] != NUL;
  }

  method SkipQuoted(z: array<Byte>, p: nat, delim: Byte) returns (h: nat)
    requires Terminated(z[..]) && p < z.Length && delim != NUL
    ensures p <= h <= End(z[..], p) && h == p + QuotedLength(StringAt(z[..], p), delim)
  {
    h := p;
    ghost var e, s := End(z[..], p), StringAt(z[..], p);
    assert s[0..] == s;
    while z[h] != NUL && z[h] != delim
      invariant p <= h <= e && QuotedLength(s, delim) == h - p + QuotedLength(s[h - p..], delim)
      decreases e - h
    {
      assert h < e && z[h] == s[h - p..][0];
      assert h + 1 < e ==> z[h + 1] == s[h + 1 - p] && z[h + 1] != NUL;
      assert s[h - p..][1..] == s[h + 1 - p..];
      if z[h] == BACKSLASH && delim == QUOTE && z[h + 1] != NUL {
        assert s[h - p..][2..] == s[h + 2 - p..];
        h := h + 1;
      }
      h := h + 1;
    }
    assert h < e ==> z[h] == s[h - p..][0] && z[h] != NUL;
  }

  /** Ends the token that starts at `arg` at position `m` and resolves its escapes if asked to. */
  method EndToken(z: array<Byte>, arg: nat, m: nat, resolve: bool)
    requires Terminated(z[..]) && arg <= m < z.Length && NulFree(z[arg..m])
    modifies z
    ensures Terminated(z[..]) && z[..arg] == old(z[..arg]) && z[m + 1..] == old(z[m + 1..])
    ensures z[m] == NUL && End(z[..], arg) <= m
    ensures StringAt(z[..], arg) == Cut(if resolve then Resolved(old(z[arg..m])) else old(z[arg..m]))
  {
    ghost var before, inside := z[..], z[arg..m];
    if z[m] != NUL {
      z[m] := NUL;
    }
    ghost var ended := z[..];
    assert ended[..arg] == before[..arg] && ended[m + 1..] == before[m + 1..] && ended[arg..m] == inside;
    EndIs(ended, arg, m);
    if resolve {
      ResolveBackslashes(z, arg);
      ResolvedString(ended, z[..], arg);
    } else {
      CutIs(inside, |inside|);
      assert inside[..|inside|] == inside;
    }
    assert z[m..] == ended[m..];
    assert z[m + 1..] == z[m..][1..] == ended[m..][1..] == ended[m + 1..];
    assert z[m] == z[m..][0] == ended[m..][0];
  }

  lemma {:induction false} EndAtMost(z: Text, p: nat, q: nat)
    requires Terminated(z) && p <= q < |z| && z[q] == NUL
    ensures End(z, p) <= q
    decreases q - p
  {
    if p < q {
      EndAtMost(z, p + 1, q);
    }
  }

  lemma ResolvedEnd(before: Text, after: Text, p: nat)
    requires Terminated(before) && p < |before| && ResolvedAt(before, after, p)
    ensures End(after, p) <= p + |Resolved(StringAt(before, p))|
  {
    EndAtMost(after, p, p + |Resolved(StringAt(before, p))|);
  }

  lemma ResolvedString(before: Text, after: Text, p: nat)
    requires Terminated(before) && p < |before| && ResolvedAt(before, after, p)
    ensures StringAt(after, p) == Cut(Resolved(StringAt(before, p)))
    ensures End(after, p) <= End(before, p)
  {
    var r := Resolved(StringAt(before, p));
    ResolvedEnd(before, after, p);
    ShownPart(after, p, r);
  }

  lemma ShownPart(z: Text, p: nat, r: Text)
    requires Terminated(z) && p + |r| < |z| && z[p..p + |r|] == r && End(z, p) <= p + |r|
    ensures StringAt(z, p) == Cut(r)
  {
    var e := End(z, p);
    SliceOfSlice(z, p, p + |r|, e - p);
    CutIs(r, e - p);
  }

  lemma SliceOfSlice(s: Text, p: nat, q: nat, k: nat)
    requires p <= q <= |s| && p + k <= q
    ensures s[p..q][..k] == s[p..p + k]
    ensures p + k < q ==> s[p..q][k] == s[p + k]
  {}

  lemma TokensEnd(s: Text, room: nat)
    ensures room == 0 || s[Blanks(s)..] == [] ==> Tokens(s, room) == []
  {}

  /** The line's tokens: those found so far and those of what is left. */
  lemma TokensNext(s: Text, room: nat)
    requires room > 0 && Blanks(s) < |s|
    ensures !IsSpace(s[Blanks(s)])
    ensures var t := s[Blanks(s)..]; Tokens(s, room) == [Token(t).0] + Tokens(t[Token(t).1..], room - 1)
  {
    NotBlank(s);
  }

  /** A token, `text`, was taken off the line at `h`: it stands at `arg`, and the rest begins at `rest`. */
  ghost predicate Taken(before: Text, after: Text, h: nat, arg: nat, rest: nat, text: Text)
    requires Terminated(before) && h < |before|
  {
    && |after| == |before| && Terminated(after)
    && h <= arg <= rest && h < rest <= End(before, h)
    && after[..h] == before[..h] && after[rest..] == before[rest..]
    && End(after, arg) <= rest
    && StringAt(after, arg) == Cut(text)
  }

  method TakeQuoted(z: array<Byte>, h: nat) returns (arg: nat, rest: nat)
    requires Terminated(z[..]) && h < z.Length && (z[h] == APOSTROPHE || z[h] == QUOTE)
    modifies z
    ensures Taken(old(z[..]), z[..], h, arg, rest, Token(old(StringAt(z[..], h))).0)
    ensures rest == h + Token(old(StringAt(z[..], h))).1
  {
    ghost var before := z[..];
    var delim := z[h];
    arg := h + 1;
    StringFurtherOn(before, before, h, arg);
    rest := SkipQuoted(z, arg, delim);
    QuotedToken(before, h, rest);
    rest := CloseToken(z, h, arg, rest, delim == QUOTE);
  }

  lemma QuotedText(s: Text, k: nat)
    requires s != [] && (s[0] == APOSTROPHE || s[0] == QUOTE) && k == QuotedLength(s[1..], s[0])
    ensures Token(s).0 == if s[0] == QUOTE then Resolved(s[1..1 + k]) else s[1..1 + k]
    ensures Token(s).1 == if 1 + k < |s| then 2 + k else 1 + k
  {}

  /** A part of the string at `h`. */
  lemma PartOfString(z: Text, h: nat, from: nat, to: nat)
    requires Terminated(z) && h < |z| && h <= from <= to <= End(z, h)
    ensures z[from..to] == StringAt(z, h)[from - h..to - h] && NulFree(z[from..to])
    ensures to < End(z, h) ==> z[to] == StringAt(z, h)[to - h] && z[to] != NUL
  {
    var s := StringAt(z, h);
    SliceOfSlice(z, h, End(z, h), to - h);
    assert s[from - h..to - h] == s[..to - h][from - h..] && z[from..to] == z[h..to][from - h..];
    NulFreePart(s, from - h, to - h);
  }

  /** The token between the quotes from `h` on. */
  lemma QuotedToken(z: Text, h: nat, m: nat)
    requires Terminated(z) && h < |z| && h < End(z, h) && h < m <= End(z, h)
    requires z[h] == APOSTROPHE || z[h] == QUOTE
    requires m - (h + 1) == QuotedLength(StringAt(z, h)[1..], z[h])
    ensures Token(StringAt(z, h)).0 == if z[h] == QUOTE then Resolved(z[h + 1..m]) else z[h + 1..m]
    ensures h + Token(StringAt(z, h)).1 == if m < End(z, h) then m + 1 else m
    ensures NulFree(z[h + 1..m]) && (m < End(z, h) ==> z[m] != NUL)
  {
    hide Token, Resolved, QuotedLength, End, NulFree;
    PartOfString(z, h, h, h);
    PartOfString(z, h, h + 1, m);
    QuotedText(StringAt(z, h), m - (h + 1));
  }

  lemma WordText(s: Text, k: nat)
    requires s != [] && s[0] != APOSTROPHE && s[0] != QUOTE && !IsSpace(s[0]) && k == Word(s)
    ensures Token(s).0 == Resolved(s[..k])
    ensures Token(s).1 == if k < |s| then k + 1 else k
  {}

  /** The word from `h` on. */
  lemma WordToken(z: Text, h: nat, m: nat)
    requires Terminated(z) && h < |z| && h < End(z, h) && h < m <= End(z, h)
    requires z[h] != APOSTROPHE && z[h] != QUOTE && !IsSpace(z[h])
    requires m - h == Word(StringAt(z, h))
    ensures Token(StringAt(z, h)).0 == Resolved(z[h..m])
    ensures h + Token(StringAt(z, h)).1 == if m < End(z, h) then m + 1 else m
    ensures NulFree(z[h..m]) && (m < End(z, h) ==> z[m] != NUL)
  {
    hide Token, Resolved, Word, End, NulFree;
    PartOfString(z, h, h, h);
    PartOfString(z, h, h, m);
    WordText(StringAt(z, h), m - h);
    assert StringAt(z, h)[0..m - h] == StringAt(z, h)[..m - h];
  }

  /** Ends the token from `arg` to `m` of the text at `h`, and steps over the character that ended it. */
  method CloseToken(z: array<Byte>, h: nat, arg: nat, m: nat, resolve: bool) returns (rest: nat)
    requires Terminated(z[..]) && h <= arg <= m < z.Length && h < m <= End(z[..], h) && NulFree(z[arg..m])
    requires m < End(z[..], h) ==> z[m] != NUL
    modifies z
    ensures Taken(old(z[..]), z[..], h, arg, rest, if resolve then Resolved(old(z[arg..m])) else old(z[arg..m]))
    ensures rest == if m < old(End(z[..], h)) then m + 1 else m
  {
    ghost var before := z[..];
    var closed := z[m] != NUL;
    EndToken(z, arg, m, resolve);
    rest := if closed then m + 1 else m;
    TailKept(before, z[..], m);
    assert z[..h] == z[..arg][..h] == before[..arg][..h];
  }

  lemma NulFreePart(s: Text, from: nat, to: nat)
    requires NulFree(s) && from <= to <= |s|
    ensures NulFree(s[from..to])
  {}

  lemma TailKept(before: Text, after: Text, m: nat)
    requires |before| == |after| && m < |before| && after[m + 1..] == before[m + 1..] && after[m] == NUL
    ensures before[m] == NUL ==> after[m..] == before[m..]
  {
    assert before[m..] == [before[m]] + before[m + 1..];
    assert after[m..] == [after[m]] + after[m + 1..];
  }

  method TakeWord(z: array<Byte>, h: nat) returns (arg: nat, rest: nat)
    requires Terminated(z[..]) && h < z.Length && z[h] != NUL && !IsSpace(z[h])
    requires z[h] != APOSTROPHE && z[h] != QUOTE
    modifies z
    ensures Taken(old(z[..]), z[..], h, arg, rest, Token(old(StringAt(z[..], h))).0)
    ensures rest == h + Token(old(StringAt(z[..], h))).1
  {
    ghost var before := z[..];
    ghost var s := StringAt(before, h);
    assert s[0] == z[h];
    arg := h;
    rest := SkipWord(z, arg);
    WordToken(before, h, rest);
    rest := CloseToken(z, h, arg, rest, true);
  }

  function Mark(z: Text, rest: nat): nat
    requires rest < |z|
  {
    if z[rest] == NUL then rest + 1 else rest
  }

  lemma OneMoreStands(before: Text, after: Text, mark: nat, first: nat, args: seq<nat>, found: seq<Text>,
                      arg: nat, rest: nat, text: Text)
    requires Terminated(before) && first < |before| && mark <= first && TokensStand(before, mark, args, found)
    requires Taken(before, after, first, arg, rest, text)
    ensures TokensStand(after, Mark(after, rest), args + [arg], found + [text])
  {
    assert after[..mark] == after[..first][..mark] == before[..first][..mark] == before[..mark];
    TokensStandStill(before, after, mark, args, found);
  }

  lemma RestString(before: Text, after: Text, first: nat, arg: nat, rest: nat, text: Text)
    requires Terminated(before) && first < |before| && Taken(before, after, first, arg, rest, text)
    ensures StringAt(after, rest) == StringAt(before, first)[rest - first..]
  {
    StringFurtherOn(before, after, first, rest);
  }

  method TakeToken(z: array<Byte>, h: nat) returns (arg: nat, rest: nat)
    requires Terminated(z[..]) && h < z.Length && z[h] != NUL && !IsSpace(z[h])
    modifies z
    ensures Taken(old(z[..]), z[..], h, arg, rest, Token(old(StringAt(z[..], h))).0)
    ensures rest == h + Token(old(StringAt(z[..], h))).1
  {
    if z[h] == APOSTROPHE || z[h] == QUOTE {
      arg, rest := TakeQuoted(z, h);
    } else {
      arg, rest := TakeWord(z, h);
    }
  }

  lemma FirstStands(z: Text, h: nat, first: nat)
    requires Terminated(z) && h < |z| && first <= End(z, h) && first == h + Blanks(StringAt(z, h))
    ensures StringAt(z, first) == StringAt(z, h)[Blanks(StringAt(z, h))..]
    ensures z[first] == NUL <==> StringAt(z, first) == []
    ensures z[first] != NUL ==> !IsSpace(StringAt(z, first)[0])
  {
    StringFurtherOn(z, z, h, first);
    NotBlank(StringAt(z, h));
    assert first < End(z, h) ==> z[first] == StringAt(z, h)[first - h];
  }

  /** Some of the line's tokens are taken, and the others are those of what is left from `h` on. */
  ghost predicate Tokenising(now: Text, h: nat, args: seq<nat>, tokens: seq<Text>) {
    && Terminated(now) && h < |now| && |args| <= MAX_ARGS && |args| <= |tokens|
    && TokensStand(now, Mark(now, h), args, tokens[..|args|])
    && tokens[|args|..] == Tokens(StringAt(now, h), MAX_ARGS - |args|)
  }

  lemma TokenisingStep(before: Text, after: Text, h: nat, first: nat, args: seq<nat>, tokens: seq<Text>,
                       arg: nat, rest: nat)
    requires Tokenising(before, h, args, tokens) && |args| < MAX_ARGS
    requires first == h + Blanks(StringAt(before, h)) && first <= End(before, h) && before[first] != NUL
    requires StringAt(before, first) != [] && !IsSpace(StringAt(before, first)[0])
    requires Taken(before, after, first, arg, rest, Token(StringAt(before, first)).0)
    requires rest == first + Token(StringAt(before, first)).1
    ensures Tokenising(after, rest, args + [arg], tokens)
  {
    hide Token, Tokens, Blanks, StringAt, TokensStand;
    var k := |args|;
    FirstStands(before, h, first);
    var text := Token(StringAt(before, first)).0;
    RestString(before, after, first, arg, rest, text);
    TokensLeft(tokens, k, StringAt(before, h), MAX_ARGS - k);
    MarkBefore(before, h, first);
    OneMoreStands(before, after, Mark(before, h), first, args, tokens[..k], arg, rest, text);
    var found, left := tokens[..k + 1], StringAt(after, rest);
    assert left == StringAt(before, first)[Token(StringAt(before, first)).1..];
    assert found == tokens[..k] + [text];
    assert tokens[k + 1..] == Tokens(left, MAX_ARGS - (k + 1));
    StillTokenising(after, rest, args + [arg], tokens, left);
  }

  lemma TokensLeft(tokens: seq<Text>, k: nat, s: Text, room: nat)
    requires k <= |tokens| && tokens[k..] == Tokens(s, room) && room > 0 && Blanks(s) < |s|
    ensures var t := s[Blanks(s)..];
      && !IsSpace(t[0])
      && k < |tokens| && tokens[..k + 1] == tokens[..k] + [Token(t).0]
      && tokens[k + 1..] == Tokens(t[Token(t).1..], room - 1)
  {
    TokensNext(s, room);
    var t := s[Blanks(s)..];
    OneMoreLeft(tokens, k, Token(t).0, Tokens(t[Token(t).1..], room - 1));
  }

  lemma StillTokenising(now: Text, h: nat, args: seq<nat>, tokens: seq<Text>, left: Text)
    requires Terminated(now) && h < |now| && |args| <= MAX_ARGS && |args| <= |tokens|
    requires TokensStand(now, Mark(now, h), args, tokens[..|args|])
    requires left == StringAt(now, h) && tokens[|args|..] == Tokens(left, MAX_ARGS - |args|)
    ensures Tokenising(now, h, args, tokens)
  {}

  lemma MarkBefore(z: Text, h: nat, first: nat)
    requires Terminated(z) && h < |z| && h <= first <= End(z, h) && z[first] != NUL
    ensures Mark(z, h) <= first
  {}

  lemma OneMoreLeft<T>(s: seq<T>, k: nat, x: T, rest: seq<T>)
    requires k <= |s| && s[k..] == [x] + rest
    ensures k < |s| && s[..k + 1] == s[..k] + [x] && s[k + 1..] == rest
  {
    assert s[k..][0] == x && s[k..][1..] == rest;
    assert s == s[..k] + s[k..];
  }

  lemma TokenisingEnds(now: Text, h: nat, args: seq<nat>, tokens: seq<Text>)
    requires Tokenising(now, h, args, tokens)
    requires |args| == |tokens| || |args| == MAX_ARGS || StringAt(now, h)[Blanks(StringAt(now, h))..] == []
    ensures |args| == |tokens|
    ensures forall k | 0 <= k < |args| :: args[k] < |now| && StringAt(now, args[k]) == Cut(tokens[k])
  {
    TokensEnd(StringAt(now, h), MAX_ARGS - |args|);
    assert tokens[|args|..] == [];
  }

  lemma EndOfLine(z: Text, h: nat)
    requires Terminated(z) && h < |z|
    ensures z[h] == NUL ==> StringAt(z, h) == []
  {}

  /** Takes the next token off the line at `h`, if there is one. */
  method TokeniseOne(z: array<Byte>, h: nat, args: seq<nat>, ghost tokens: seq<Text>)
    returns (more: bool, arg: nat, rest: nat)
    requires Tokenising(z[..], h, args, tokens) && |args| < MAX_ARGS && z[h] != NUL
    modifies z
    ensures more ==> h < rest && Tokenising(z[..], rest, args + [arg], tokens)
    ensures !more ==> z[..] == old(z[..]) && |args| == |tokens|
  {
    ghost var before := z[..];
    var first := SkipBlanks(z, h);
    FirstStands(before, h, first);
    if z[first] == NUL {
      TokenisingEnds(before, h, args, tokens);
      more, arg, rest := false, first, first;
    } else {
      more := true;
      arg, rest := TakeToken(z, first);
      TokenisingStep(before, z[..], h, first, args, tokens, arg, rest);
    }
  }

  lemma TokenisingStarts(z: Text, start: nat)
    requires Terminated(z) && start < |z|
    ensures Tokenising(z, start, [], Tokens(StringAt(z, start), MAX_ARGS))
  {}

  /** Splits the line from `start` on into at most fifty tokens, each of them a C string in the line itself. */
  method Tokenise(z: array<Byte>, start: nat) returns (args: seq<nat>)
    requires Terminated(z[..]) && start < z.Length
    modifies z
    ensures Terminated(z[..])
    ensures |args| == |Tokens(old(StringAt(z[..], start)), MAX_ARGS)|
    ensures forall k | 0 <= k < |args| ::
      args[k] < z.Length && StringAt(z[..], args[k]) == Cut(Tokens(old(StringAt(z[..], start)), MAX_ARGS)[k])
  {
    args := [];
    var h := start;
    ghost var tokens := Tokens(StringAt(z[..], start), MAX_ARGS);
    TokenisingStarts(z[..], start);
    while z[h] != NUL && |args| < MAX_ARGS
      invariant Tokenising(z[..], h, args, tokens)
      decreases z.Length - h
    {
      var more, arg, rest := TokeniseOne(z, h, args, tokens);
      if !more {
        TokenisingEnds(z[..], h, args, tokens);
        return;
      }
      args := args + [arg];
      h := rest;
    }
    EndOfLine(z[..], h);
    TokenisingEnds(z[..], h, args, tokens);
  }

  // ----- The round trip, in place

  lemma {:induction false} PrintedNulFree(z: Text)
    requires NulFree(z)
    ensures NulFree(Printed(z))
  {
    if z != [] {
      assert NulFree(z[1..]);
      PrintedNulFree(z[1..]);
    }
  }

  lemma {:induction false} LineNulFree(args: seq<Text>)
    requires forall a | a in args :: NulFree(a)
    ensures NulFree(Line(args)) && NulFree(MoreOfLine(args))
  {
    if args != [] {
      PrintedNulFree(args[0]);
      LineNulFree(args[1..]);
    }
  }

  lemma LineStands(z: Text, start: nat, line: Text)
    requires start <= |z| && z[start..] == line + [NUL] && NulFree(line)
    ensures Terminated(z) && start < |z| && StringAt(z, start) == line
  {
    assert z[|z| - 1] == z[start..][|line|] && z[start..start + |line|] == z[start..][..|line|] == line;
    assert z[start + |line|] == z[start..][|line|];
    EndIs(z, start, start + |line|);
  }

  /** A line of printed C strings, wherever it stands in a buffer, tokenises to those strings, and the C strings
      that the tokeniser leaves in the buffer show all of them. */
  lemma CommandLineReadsBack(z: Text, start: nat, args: seq<Text>)
    requires |args| <= 50 && forall a | a in args :: NulFree(a)
    requires start <= |z| && z[start..] == Line(args) + [NUL]
    ensures Terminated(z) && start < |z| && Tokens(StringAt(z, start), MAX_ARGS) == args
    ensures forall a | a in args :: Cut(a) == a
  {
    hide Tokens, Line, Cut;
    LineNulFree(args);
    LineStands(z, start, Line(args));
    LineReadsBack(args, MAX_ARGS);
    forall a | a in args
      ensures Cut(a) == a
    {
      WholeText(a);
    }
  }

  lemma {:induction false} ItemLineNulFree(items: seq<(Item, Text)>)
    requires Spaced(items) && forall k | 0 <= k < |items| :: NulFree(items[k].0.text)
    ensures NulFree(ItemLine(items))
  {
    if items != [] {
      ItemLineNulFree(items[1..]);
      if items[0].0.Double? {
        PrintedNulFree(items[0].0.text);
      }
      assert BlankOnly(items[0].1);
    }
  }

  /** The same for words, singly quoted texts and printed C strings in any mixture. */
  lemma MixedLineReadsBack(z: Text, start: nat, lead: Text, items: seq<(Item, Text)>)
    requires |items| <= 50 && BlankOnly(lead) && Spaced(items)
    requires forall k | 0 <= k < |items| :: NulFree(items[k].0.text)
    requires start <= |z| && z[start..] == lead + ItemLine(items) + [NUL]
    ensures Terminated(z) && start < |z| && Tokens(StringAt(z, start), MAX_ARGS) == ItemTexts(items)
    ensures forall k | 0 <= k < |items| :: Cut(ItemTexts(items)[k]) == items[k].0.text
  {
    hide Tokens, ItemLine, Cut, Spaced;
    var line := lead + ItemLine(items);
    ItemLineNulFree(items);
    assert NulFree(lead) && NulFree(line);
    LineStands(z, start, line);
    ItemsReadBack(lead, items, MAX_ARGS);
    forall k | 0 <= k < |items|
      ensures Cut(ItemTexts(items)[k]) == items[k].0.text
    {
      WholeText(items[k].0.text);
    }
  }

  lemma WholeText(a: Text)
    requires NulFree(a)
    ensures Cut(a) == a
  {
    CutIs(a, |a|);
    assert a[..|a|] == a;
  }
}
