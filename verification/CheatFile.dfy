/**
  The cheat code file (src/ARCodeFile.cpp): a list of codes and of categories of codes, printed line by
  line and parsed back line by line.
*/
module CheatFile {
  type u32 = x: nat | x < 0x1_0000_0000

  datatype Code = Code(name: string, description: string, enabled: bool, words: seq<u32>)

  datatype Item = Single(code: Code) | Category(name: string, description: string, onlyOne: bool, codes: seq<Code>)

  datatype Option<T> = None | Some(value: T)

  // ----- categories that allow one enabled code -----

  /** The first enabled code stays enabled; `found` says whether there was one before. */
  function OneEnabled(codes: seq<Code>, found: bool): seq<Code> {
    if codes == [] then []
    else [codes[0].(enabled := codes[0].enabled && !found)] + OneEnabled(codes[1..], found || codes[0].enabled)
  }

  function Finalized(item: Item): Item {
    if item.Category? && item.onlyOne then item.(codes := OneEnabled(item.codes, false)) else item
  }

  function FinalizedList(items: seq<Item>): seq<Item> {
    if items == [] then [] else [Finalized(items[0])] + FinalizedList(items[1..])
  }

  // ----- what scanf and the line reader do -----

  function At(s: string, i: nat): char { if i < |s| then s[i] else '\0' }

  predicate IsSpace(c: char) { c == ' ' || 9 as char <= c <= 13 as char }

  function SkipSpace(s: string): (r: string)
    ensures |r| <= |s|
  {
    if s != [] && IsSpace(s[0]) then SkipSpace(s[1..]) else s
  }

  function SkipBlanks(s: string): string {
    if s != [] && (s[0] == ' ' || s[0] == '\t') then SkipBlanks(s[1..]) else s
  }

  predicate IsDigit(c: char) { '0' <= c <= '9' }

  function Digits(s: string): string {
    if s != [] && IsDigit(s[0]) then [s[0]] + Digits(s[1..]) else []
  }

  function Value(digits: string): nat
    requires forall c <- digits :: IsDigit(c)
  {
    if digits == [] then 0 else Value(digits[..|digits| - 1]) * 10 + DigitValue(digits[|digits| - 1])
  }

  function DigitValue(c: char): nat
    requires IsDigit(c)
  {
    c as nat - '0' as nat
  }

  lemma {:induction false} DigitsAre(s: string)
    ensures Digits(s) <= s && forall c <- Digits(s) :: IsDigit(c)
  {
    if s != [] && IsDigit(s[0]) {
      DigitsAre(s[1..]);
    }
  }

  /** %d: whether the number is not zero, and what follows it. */
  function ScanFlag(s: string): Option<(bool, string)> {
    var t := SkipSpace(s);
    var u := if At(t, 0) == '-' || At(t, 0) == '+' then t[1..] else t;
    var digits := Digits(u);
    DigitsAre(u);
    if digits == [] then None else Some((Value(digits) != 0, u[|digits|..]))
  }

  predicate Ends(c: char) { c == '\r' || c == '\n' || c == '\0' }

  /** %127[^\r\n] and %255[^\r\n] after a blank. */
  function TakeName(s: string, max: nat): string {
    if max > 0 && s != [] && !Ends(s[0]) then [s[0]] + TakeName(s[1..], max - 1) else []
  }

  function ScanName(s: string, max: nat): Option<string> {
    var name := TakeName(SkipSpace(s), max);
    if name == [] then None else Some(name)
  }

  /** A literal word at the start of the format. */
  function ScanWord(s: string, word: string): Option<string> {
    if word <= s then Some(s[|word|..]) else None
  }

  function HexValue(c: char): Option<nat> {
    if '0' <= c <= '9' then Some(c as nat - '0' as nat)
    else if 'A' <= c <= 'F' then Some(c as nat - 'A' as nat + 10)
    else if 'a' <= c <= 'f' then Some(c as nat - 'a' as nat + 10)
    else None
  }

  /** How many of the next `width` characters are hexadecimal digits. */
  function HexRun(s: string, width: nat): (n: nat)
    ensures n <= |s| && n <= width && forall i | 0 <= i < n :: HexValue(s[i]).Some?
  {
    if width > 0 && s != [] && HexValue(s[0]).Some? then 1 + HexRun(s[1..], width - 1) else 0
  }

  function HexNumber(s: string): nat
    requires forall c <- s :: HexValue(c).Some?
  {
    if s == [] then 0 else HexNumber(s[..|s| - 1]) * 16 + HexValue(s[|s| - 1]).value
  }

  /** A hexadecimal number of at most `width` characters, among them a prefix 0x. */
  function ScanUnsigned(u: string, width: nat): Option<(u32, string)> {
    var prefixed := At(u, 0) == '0' && (At(u, 1) == 'x' || At(u, 1) == 'X');
    var v := if prefixed then u[2..] else u;
    var n := HexRun(v, if !prefixed then width else if width >= 2 then width - 2 else 0);
    if n == 0 && !prefixed then None else Some((HexNumber(v[..n]) % 0x1_0000_0000, v[n..]))
  }

  /** %08X: at most eight characters, among them a sign and a prefix. */
  function ScanHex(s: string): Option<(u32, string)> {
    var t := SkipSpace(s);
    if At(t, 0) == '+' then ScanUnsigned(t[1..], 7)
    else if At(t, 0) == '-' then
      match ScanUnsigned(t[1..], 7)
      case None => None
      case Some((number, rest)) => Some(((0x1_0000_0000 - number) % 0x1_0000_0000, rest))
    else ScanUnsigned(t, 8)
  }

  function Upper(c: char): char { if 'a' <= c <= 'z' then c - 32 as char else c }

  /** strncasecmp with a word of capitals. */
  predicate StartsLike(s: string, word: string) {
    |word| <= |s| && forall i | 0 <= i < |word| :: Upper(s[i]) == word[i]
  }

  // ----- parsing -----

  /** `atRoot` says whether codes are added to the root or to the last item, which is then a category;
      `last` is 1 after a category line and 2 after a code line. */
  datatype State = State(items: seq<Item>, inCat: bool, atRoot: bool, inCode: bool, last: nat) {
    ghost predicate Valid() {
      && (!atRoot ==> items != [] && Last(items).Category?)
      && (inCode || last == 2 ==> HasCode())
      && (last == 1 ==> !atRoot)
    }

    /** The current list ends in a code. */
    predicate HasCode() {
      items != [] && if atRoot then Last(items).Single? else Last(items).Category? && Last(items).codes != []
    }
  }

  function Last<T>(s: seq<T>): T
    requires s != []
  {
    s[|s| - 1]
  }

  function SetLast<T>(s: seq<T>, x: T): (r: seq<T>)
    requires s != []
    ensures r != [] && Last(r) == x
  {
    s[..|s| - 1] + [x]
  }

  function AddCode(st: State, c: Code): (r: State)
    requires st.Valid()
    ensures r.Valid() && r.HasCode()
  {
    var items := if st.atRoot then st.items + [Single(c)]
                 else SetLast(st.items, Last(st.items).(codes := Last(st.items).codes + [c]));
    st.(items := items, inCode := true, last := 2)
  }

  function LastCode(st: State): Code
    requires st.Valid() && st.HasCode()
  {
    if st.atRoot then Last(st.items).code else Last(Last(st.items).codes)
  }

  function SetCode(st: State, c: Code): (r: State)
    requires st.Valid() && st.HasCode()
    ensures r.Valid()
  {
    var item := Last(st.items);
    st.(items := SetLast(st.items, if st.atRoot then Single(c) else item.(codes := SetLast(item.codes, c))))
  }

  /** What a line does; `Err` keeps what was parsed before it. */
  datatype Result = Ok(st: State) | Err(items: seq<Item>)

  function CatLine(st: State, s: string): (r: Result)
    requires st.Valid()
    ensures r.Ok? ==> r.st.Valid()
  {
    var numbered := At(s, 3) == ' ' && (At(s, 4) == '0' || At(s, 4) == '1') && At(s, 5) == ' ';
    match ScanWord(s, "CAT")
    case None => Err(st.items)
    case Some(t) =>
      var flag := if numbered then ScanFlag(t) else Some((false, t));
      match flag
      case None => Err(st.items)
      case Some((onlyOne, u)) =>
        match ScanName(u, 127)
        case None => Err(st.items)
        case Some(name) => Ok(State(st.items + [Category(name, "", onlyOne, [])], true, false, false, 1))
  }

  function CodeLine(st: State, s: string): (r: Result)
    requires st.Valid()
    ensures r.Ok? ==> r.st.Valid()
  {
    match ScanWord(s, "CODE")
    case None => Err(st.items)
    case Some(t) =>
      match ScanFlag(t)
      case None => Err(st.items)
      case Some((enabled, u)) =>
        match ScanName(u, 127)
        case None => Err(st.items)
        case Some(name) => if !st.inCat then Err(st.items) else Ok(AddCode(st, Code(name, "", enabled, [])))
  }

  function DescLine(st: State, s: string): (r: Result)
    requires st.Valid()
    ensures r.Ok? ==> r.st.Valid()
  {
    var desc := match ScanWord(s, "DESC") case None => None case Some(t) => ScanName(t, 255);
    match desc
    case None => Ok(st)
    case Some(d) =>
      if st.last == 2 then Ok(SetCode(st, LastCode(st).(description := d)))
      else if st.last == 1 then Ok(st.(items := SetLast(st.items, Last(st.items).(description := d))))
      else Err(st.items)
  }

  function DataLine(st: State, s: string): (r: Result)
    requires st.Valid()
    ensures r.Ok? ==> r.st.Valid()
  {
    match ScanHex(s)
    case None => Err(st.items)
    case Some((c0, t)) =>
      match ScanHex(t)
      case None => Err(st.items)
      case Some((c1, _)) =>
        if !st.inCode then Err(st.items)
        else Ok(SetCode(st, LastCode(st).(words := LastCode(st).words + [c0, c1])))
  }

  function Feed(st: State, line: string): (r: Result)
    requires st.Valid()
    ensures r.Ok? ==> r.st.Valid()
  {
    var s := SkipBlanks(line);
    if At(s, 0) == '#' || Ends(At(s, 0)) then Ok(st)
    else if StartsLike(s, "ROOT") then Ok(st.(inCode := false, inCat := true, atRoot := true, last := 0))
    else if StartsLike(s, "CAT") then CatLine(st, s)
    else if StartsLike(s, "CODE") then CodeLine(st, s)
    else if StartsLike(s, "DESC") then DescLine(st, s)
    else DataLine(st, s)
  }

  /** A line and its newline, or as much of it as fits into the buffer. */
  function LineLength(s: string, room: nat): (n: nat)
    requires s != [] && room > 0
    ensures 0 < n <= |s| && n <= room
  {
    if s[0] == '\n' || |s| == 1 || room == 1 then 1 else 1 + LineLength(s[1..], room - 1)
  }

  function FeedText(st: State, text: string): (r: Result)
    requires st.Valid()
    ensures r.Ok? ==> r.st.Valid()
    decreases |text|
  {
    if text == [] then Ok(st)
    else
      var n := LineLength(text, 1023);
      match Feed(st, text[..n])
      case Err(items) => Err(items)
      case Ok(next) => FeedText(next, text[n..])
  }

  const START := State([], false, true, false, 0)

  /** The list a file is read into, or nothing if it is malformed. */
  function Parsed(text: string): Option<seq<Item>> {
    match FeedText(START, text) case Err(_) => None case Ok(st) => Some(FinalizedList(st.items))
  }

  // ----- printing -----

  function HexDigit(d: nat): char
    requires d < 16
  {
    "0123456789ABCDEF"[d]
  }

  /** %08X */
  function Hex(v: nat, n: nat): (s: string)
    ensures |s| == n
  {
    if n == 0 then [] else Hex(v / 16, n - 1) + [HexDigit(v % 16)]
  }

  function Flag(b: bool): string { if b then "1" else "0" }

  function WordLines(words: seq<u32>): seq<string>
    requires |words| % 2 == 0
  {
    if words == [] then [] else [Hex(words[0], 8) + " " + Hex(words[1], 8) + "\n"] + WordLines(words[2..])
  }

  function DescLines(desc: string): seq<string> {
    if desc == [] then [] else ["DESC " + desc + "\n"]
  }

  function CodeLines(c: Code): seq<string>
    requires |c.words| % 2 == 0
  {
    ["CODE " + Flag(c.enabled) + " " + c.name + "\n"] + DescLines(c.description) + WordLines(c.words) + ["\n"]
  }

  function AllCodeLines(codes: seq<Code>): seq<string>
    requires forall c <- codes :: |c.words| % 2 == 0
  {
    if codes == [] then [] else CodeLines(codes[0]) + AllCodeLines(codes[1..])
  }

  predicate EvenWords(item: Item) {
    match item case Single(c) => |c.words| % 2 == 0 case Category(_, _, _, codes) => forall c <- codes :: |c.words| % 2 == 0
  }

  /** The lines of the file; `inCat` is true where a root code needs a ROOT line before it. */
  function ListLines(items: seq<Item>, inCat: bool): seq<string>
    requires forall item <- items :: EvenWords(item)
  {
    if items == [] then []
    else
      assert EvenWords(items[0]);
      match items[0]
      case Category(name, desc, onlyOne, codes) =>
        ["CAT " + Flag(onlyOne) + " " + name + "\n"] + DescLines(desc) + ["\n"] + AllCodeLines(codes)
        + ListLines(items[1..], true)
      case Single(c) =>
        (if inCat then ["ROOT\n", "\n"] else []) + CodeLines(c) + ListLines(items[1..], false)
  }

  function Join(lines: seq<string>): string {
    if lines == [] then [] else lines[0] + Join(lines[1..])
  }

  function Printed(items: seq<Item>): string
    requires forall item <- items :: EvenWords(item)
  {
    Join(ListLines(items, true))
  }

  // ----- FinalizeList -----

  function Enabled(codes: seq<Code>): nat {
    if codes == [] then 0 else (if codes[0].enabled then 1 else 0) + Enabled(codes[1..])
  }

  /** At most one code stays enabled, the first that was; names, descriptions and words stay as they are. */
  lemma {:induction false} OnlyFirstStays(codes: seq<Code>, found: bool)
    ensures var r := OneEnabled(codes, found);
            && |r| == |codes|
            && Enabled(r) == (if !found && Enabled(codes) > 0 then 1 else 0)
            && forall i | 0 <= i < |codes| ::
                 r[i] == codes[i].(enabled := codes[i].enabled && !found && Enabled(codes[..i]) == 0)
  {
    if codes != [] {
      var rest, now := codes[1..], found || codes[0].enabled;
      OnlyFirstStays(rest, now);
      forall i | 0 < i < |codes|
        ensures Enabled(codes[..i]) == (if codes[0].enabled then 1 else 0) + Enabled(rest[..i - 1])
      {
        assert codes[..i][1..] == rest[..i - 1];
      }
    }
  }

  lemma {:induction false} OneEnabledTwice(codes: seq<Code>, found: bool)
    ensures OneEnabled(OneEnabled(codes, found), found) == OneEnabled(codes, found)
  {
    if codes != [] {
      OneEnabledTwice(codes[1..], found || codes[0].enabled);
    }
  }

  lemma {:induction false} FinalizedTwice(items: seq<Item>)
    ensures FinalizedList(FinalizedList(items)) == FinalizedList(items)
  {
    if items != [] {
      FinalizedTwice(items[1..]);
      if items[0].Category? {
        OneEnabledTwice(items[0].codes, false);
      }
    }
  }

  lemma {:induction false} FinalizedCategories(items: seq<Item>)
    ensures |FinalizedList(items)| == |items|
    ensures forall i | 0 <= i < |items| ::
              FinalizedList(items)[i] == Finalized(items[i]) &&
              (items[i].Category? && items[i].onlyOne ==> Enabled(Finalized(items[i]).codes) <= 1)
  {
    if items != [] {
      FinalizedCategories(items[1..]);
      if items[0].Category? {
        OnlyFirstStays(items[0].codes, false);
      }
    }
  }

  // ----- reading back what was printed -----

  /** No line breaks and no end of string. */
  predicate Printable(s: string) { forall c <- s :: !Ends(c) }

  predicate GoodName(s: string) { s != [] && |s| <= 127 && Printable(s) && !IsSpace(s[0]) }

  predicate GoodDescription(s: string) { |s| <= 255 && Printable(s) && (s != [] ==> !IsSpace(s[0])) }

  predicate GoodCode(c: Code) { GoodName(c.name) && GoodDescription(c.description) && |c.words| % 2 == 0 }

  predicate GoodItem(item: Item) {
    match item
    case Single(c) => GoodCode(c)
    case Category(name, desc, _, codes) => GoodName(name) && GoodDescription(desc) && forall c <- codes :: GoodCode(c)
  }

  predicate IsLine(line: string) {
    0 < |line| <= 1023 && line[|line| - 1] == '\n' && forall i | 0 <= i < |line| - 1 :: line[i] != '\n'
  }

  lemma {:induction false} LineIsRead(line: string, rest: string, room: nat)
    requires 0 < |line| <= room && line[|line| - 1] == '\n' && forall i | 0 <= i < |line| - 1 :: line[i] != '\n'
    ensures LineLength(line + rest, room) == |line|
    decreases |line|
  {
    if |line| > 1 {
      LineIsRead(line[1..], rest, room - 1);
      assert (line + rest)[1..] == line[1..] + rest;
    }
  }

  function FeedLines(st: State, lines: seq<string>): (r: Result)
    requires st.Valid()
    ensures r.Ok? ==> r.st.Valid()
    decreases |lines|
  {
    if lines == [] then Ok(st)
    else match Feed(st, lines[0]) case Err(items) => Err(items) case Ok(next) => FeedLines(next, lines[1..])
  }

  lemma {:induction false} TextIsLines(st: State, lines: seq<string>)
    requires st.Valid() && forall l <- lines :: IsLine(l)
    ensures FeedText(st, Join(lines)) == FeedLines(st, lines)
    decreases |lines|
  {
    hide Feed, State.Valid;
    if lines != [] {
      var text := Join(lines);
      assert IsLine(lines[0]);
      LineIsRead(lines[0], Join(lines[1..]), 1023);
      assert text[..|lines[0]|] == lines[0] && text[|lines[0]|..] == Join(lines[1..]);
      match Feed(st, lines[0])
      case Err(_) =>
      case Ok(next) => TextIsLines(next, lines[1..]);
    }
  }

  lemma {:induction false} FeedBoth(st: State, first: seq<string>, then_: seq<string>)
    requires st.Valid() && FeedLines(st, first).Ok?
    ensures FeedLines(st, first + then_) == FeedLines(FeedLines(st, first).st, then_)
    decreases |first|
  {
    hide Feed, State.Valid;
    if first == [] {
      assert first + then_ == then_;
    } else {
      assert (first + then_)[1..] == first[1..] + then_;
      FeedBoth(Feed(st, first[0]).st, first[1..], then_);
    }
  }

  // ----- one line -----

  lemma {:induction false} NameIsTaken(name: string, max: nat)
    requires Printable(name) && |name| <= max
    ensures TakeName(name + "\n", max) == name
    decreases |name|
  {
    if name != [] {
      assert (name + "\n")[1..] == name[1..] + "\n";
      NameIsTaken(name[1..], max - 1);
    }
  }

  lemma NameIsScanned(name: string, max: nat)
    requires name != [] && Printable(name) && |name| <= max && !IsSpace(name[0])
    ensures ScanName(" " + name + "\n", max) == Some(name)
  {
    NameIsTaken(name, max);
    var t := name + "\n";
    assert (" " + name + "\n")[1..] == t && t[0] == name[0];
    assert SkipSpace(t) == t && SkipSpace(" " + name + "\n") == SkipSpace(t);
  }

  lemma FlagIsScanned(b: bool, rest: string)
    ensures ScanFlag(" " + Flag(b) + " " + rest) == Some((b, " " + rest))
  {
    var t := Flag(b) + " " + rest;
    assert (" " + Flag(b) + " " + rest)[1..] == t;
    assert SkipSpace(t) == t && SkipSpace(" " + Flag(b) + " " + rest) == SkipSpace(t);
    assert t[1..] == " " + rest;
    assert Digits(t[1..]) == [];
    assert Digits(t) == Flag(b);
    assert Flag(b)[..0] == [];
    assert Value(Flag(b)) == if b then 1 else 0;
  }

  lemma CatIsRead(st: State, onlyOne: bool, name: string)
    requires st.Valid() && GoodName(name)
    ensures Feed(st, "CAT " + Flag(onlyOne) + " " + name + "\n") ==
            Ok(State(st.items + [Category(name, "", onlyOne, [])], true, false, false, 1))
  {
    var line := "CAT " + Flag(onlyOne) + " " + name + "\n";
    assert line == "CAT" + (" " + Flag(onlyOne) + " " + (name + "\n"));
    assert line[3..] == " " + Flag(onlyOne) + " " + (name + "\n");
    FlagIsScanned(onlyOne, name + "\n");
    assert " " + (name + "\n") == " " + name + "\n";
    NameIsScanned(name, 127);
    assert line[0] == 'C' && line[1] == 'A' && line[2] == 'T' && line[3] == ' ' && line[5] == ' ';
    assert !StartsLike(line, "ROOT") by { assert Upper(line[0]) != "ROOT"[0]; }
  }

  lemma CodeIsRead(st: State, enabled: bool, name: string)
    requires st.Valid() && GoodName(name) && st.inCat
    ensures Feed(st, "CODE " + Flag(enabled) + " " + name + "\n") == Ok(AddCode(st, Code(name, "", enabled, [])))
  {
    hide AddCode, State.Valid;
    var line := "CODE " + Flag(enabled) + " " + name + "\n";
    assert line == "CODE" + (" " + Flag(enabled) + " " + (name + "\n"));
    assert line[4..] == " " + Flag(enabled) + " " + (name + "\n");
    FlagIsScanned(enabled, name + "\n");
    assert " " + (name + "\n") == " " + name + "\n";
    NameIsScanned(name, 127);
    assert line[0] == 'C' && line[1] == 'O' && line[2] == 'D' && line[3] == 'E';
    assert !StartsLike(line, "ROOT") by { assert Upper(line[0]) != "ROOT"[0]; }
    assert !StartsLike(line, "CAT") by { assert Upper(line[1]) != "CAT"[1]; }
  }

  lemma DescIsRead(st: State, desc: string)
    requires st.Valid() && GoodDescription(desc) && desc != []
    ensures var line := "DESC " + desc + "\n";
            ScanWord(line, "DESC") == Some(" " + desc + "\n") && ScanName(" " + desc + "\n", 255) == Some(desc)
            && Feed(st, line) == DescLine(st, line)
  {
    var line := "DESC " + desc + "\n";
    assert line == "DESC" + (" " + desc + "\n");
    assert line[4..] == " " + desc + "\n";
    NameIsScanned(desc, 255);
    assert line[0] == 'D' && line[1] == 'E' && line[2] == 'S' && line[3] == 'C';
    assert !StartsLike(line, "ROOT") by { assert Upper(line[0]) != "ROOT"[0]; }
    assert !StartsLike(line, "CAT") by { assert Upper(line[0]) != "CAT"[0]; }
    assert !StartsLike(line, "CODE") by { assert Upper(line[0]) != "CODE"[0]; }
  }

  lemma RootIsRead(st: State)
    requires st.Valid()
    ensures Feed(st, "ROOT\n") == Ok(st.(inCode := false, inCat := true, atRoot := true, last := 0))
    ensures Feed(st, "\n") == Ok(st)
  {
    hide CatLine, CodeLine, DescLine, DataLine;
    assert SkipBlanks("ROOT\n") == "ROOT\n" && SkipBlanks("\n") == "\n";
  }

  function Pow16(n: nat): nat { if n == 0 then 1 else Pow16(n - 1) * 16 }

  predicate IsCapitalHex(c: char) { '0' <= c <= '9' || 'A' <= c <= 'F' }

  lemma DigitIsHex(d: nat)
    requires d < 16
    ensures IsCapitalHex(HexDigit(d)) && HexValue(HexDigit(d)) == Some(d)
  {
  }

  lemma {:induction false} HexIsHex(v: nat, n: nat)
    requires v < Pow16(n)
    ensures forall c <- Hex(v, n) :: IsCapitalHex(c) && HexValue(c).Some?
    ensures HexNumber(Hex(v, n)) == v
  {
    if n > 0 {
      HexIsHex(v / 16, n - 1);
      DigitIsHex(v % 16);
      assert Hex(v, n)[..n - 1] == Hex(v / 16, n - 1);
    }
  }

  lemma {:induction false} HexRunsOn(s: string, rest: string)
    requires forall c <- s :: IsCapitalHex(c)
    ensures HexRun(s + rest, |s|) == |s|
    decreases |s|
  {
    if s != [] {
      assert (s + rest)[1..] == s[1..] + rest && (s + rest)[0] == s[0] && IsCapitalHex(s[0]);
      HexRunsOn(s[1..], rest);
    }
  }

  lemma HexIsScanned(v: u32, rest: string)
    ensures ScanHex(Hex(v, 8) + rest) == Some((v, rest))
  {
    hide Hex, HexRun, HexNumber, Pow16;
    var digits := Hex(v, 8);
    var t := digits + rest;
    EightDigits();
    HexIsHex(v, 8);
    HexRunsOn(digits, rest);
    assert IsCapitalHex(digits[0]) && IsCapitalHex(digits[1]);
    assert t[0] == digits[0] && t[1] == digits[1];
    assert SkipSpace(t) == t;
    assert t[..8] == digits && t[8..] == rest;
  }

  lemma EightDigits()
    ensures Pow16(8) == 0x1_0000_0000
  {
  }

  lemma BlankThenHex(v: u32, rest: string)
    ensures ScanHex(" " + Hex(v, 8) + rest) == ScanHex(Hex(v, 8) + rest)
  {
    hide Hex, HexRun, HexNumber;
    assert (" " + Hex(v, 8) + rest)[1..] == Hex(v, 8) + rest;
  }

  lemma DataIsRead(st: State, c0: u32, c1: u32)
    requires st.Valid() && st.inCode
    ensures Feed(st, Hex(c0, 8) + " " + Hex(c1, 8) + "\n") ==
            Ok(SetCode(st, LastCode(st).(words := LastCode(st).words + [c0, c1])))
  {
    hide Hex, ScanHex, SetCode, LastCode, Pow16, HexNumber;
    var line := Hex(c0, 8) + " " + Hex(c1, 8) + "\n";
    assert line == Hex(c0, 8) + (" " + Hex(c1, 8) + "\n");
    EightDigits();
    HexIsHex(c0, 8);
    HexIsScanned(c0, " " + Hex(c1, 8) + "\n");
    BlankThenHex(c1, "\n");
    HexIsScanned(c1, "\n");
    assert forall i | 0 <= i < 8 :: line[i] == Hex(c0, 8)[i] && IsCapitalHex(line[i]);
    assert SkipBlanks(line) == line;
    assert !StartsLike(line, "ROOT") by { assert Upper(line[0]) != "ROOT"[0]; }
    assert !StartsLike(line, "CAT") by { assert Upper(line[2]) != "CAT"[2]; }
    assert !StartsLike(line, "CODE") by { assert Upper(line[1]) != "CODE"[1]; }
    assert !StartsLike(line, "DESC") by { assert Upper(line[2]) != "DESC"[2]; }
  }

  // ----- the whole list -----

  lemma SetTwice(st: State, c: Code, d: Code)
    requires st.Valid() && st.HasCode()
    ensures SetCode(st, c).HasCode() && LastCode(SetCode(st, c)) == c
    ensures SetCode(SetCode(st, c), d) == SetCode(st, d) && SetCode(st, LastCode(st)) == st
    ensures SetCode(st, c) == st.(items := SetCode(st, c).items)
  {
    var t := SetCode(st, c);
    assert t.items[..|t.items| - 1] == st.items[..|st.items| - 1];
    assert st.items == st.items[..|st.items| - 1] + [Last(st.items)];
    if !st.atRoot {
      var codes := Last(st.items).codes;
      assert codes == codes[..|codes| - 1] + [Last(codes)];
      assert Last(t.items).codes[..|codes| - 1] == codes[..|codes| - 1];
    }
  }

  lemma SetAdded(st: State, c: Code, d: Code)
    requires st.Valid()
    ensures LastCode(AddCode(st, c)) == c && SetCode(AddCode(st, c), d) == AddCode(st, d)
  {
    var t := AddCode(st, c);
    if st.atRoot {
      assert t.items[..|t.items| - 1] == st.items;
    } else {
      assert t.items[..|t.items| - 1] == st.items[..|st.items| - 1];
      assert Last(t.items).codes[..|Last(st.items).codes|] == Last(st.items).codes;
    }
  }

  lemma {:induction false} WordsAreRead(st: State, words: seq<u32>)
    requires st.Valid() && st.inCode && |words| % 2 == 0
    ensures FeedLines(st, WordLines(words)) == Ok(SetCode(st, LastCode(st).(words := LastCode(st).words + words)))
    decreases |words|
  {
    hide Feed, SetCode, LastCode, State.HasCode, Hex;
    var c := LastCode(st);
    if words == [] {
      SetTwice(st, c, c);
      assert c.words + words == c.words;
    } else {
      DataIsRead(st, words[0], words[1]);
      var d := c.(words := c.words + [words[0], words[1]]);
      SetTwice(st, d, d.(words := d.words + words[2..]));
      WordsAreRead(SetCode(st, d), words[2..]);
      assert d.words + words[2..] == c.words + words;
    }
  }

  lemma CodeLinesAreRead(st: State, c: Code)
    requires st.Valid() && st.inCat && GoodCode(c)
    ensures FeedLines(st, CodeLines(c)) == Ok(AddCode(st, c))
  {
    hide Feed, SetCode, LastCode, AddCode, State.HasCode, FeedLines, WordLines, DescLines, StartsLike, ScanFlag, ScanName;
    var head := ["CODE " + Flag(c.enabled) + " " + c.name + "\n"];
    var bare := Code(c.name, "", c.enabled, []);
    var named := bare.(description := c.description);
    CodeIsRead(st, c.enabled, c.name);
    OneLine(st, head[0], AddCode(st, bare));
    AddCodeFlags(st, bare);
    FeedBoth(st, head, DescLines(c.description) + WordLines(c.words) + ["\n"]);
    SetAdded(st, bare, named);
    DescIsAdded(AddCode(st, bare), c.description);
    SetAdded(st, named, c);
    AddCodeFlags(st, named);
    AddCodeFlags(st, c);
    FeedBoth(AddCode(st, bare), DescLines(c.description), WordLines(c.words) + ["\n"]);
    WordsAreRead(AddCode(st, named), c.words);
    assert [] + c.words == c.words;
    FeedBoth(AddCode(st, named), WordLines(c.words), ["\n"]);
    RootIsRead(AddCode(st, c));
    OneLine(AddCode(st, c), "\n", AddCode(st, c));
    assert CodeLines(c) == head + (DescLines(c.description) + WordLines(c.words) + ["\n"]);
    assert DescLines(c.description) + WordLines(c.words) + ["\n"] == DescLines(c.description) + (WordLines(c.words) + ["\n"]);
  }

  lemma OneLine(st: State, line: string, next: State)
    requires st.Valid() && Feed(st, line) == Ok(next)
    ensures FeedLines(st, [line]) == Ok(next)
  {
    hide Feed, State.Valid;
    assert [line][1..] == [];
  }

  lemma AddCodeFlags(st: State, c: Code)
    requires st.Valid()
    ensures var r := AddCode(st, c); r.inCode && r.last == 2 && r.inCat == st.inCat && r.atRoot == st.atRoot
  {
  }

  lemma DescIsAdded(st: State, desc: string)
    requires st.Valid() && st.last == 2 && GoodDescription(desc) && LastCode(st).description == []
    ensures FeedLines(st, DescLines(desc)) == Ok(SetCode(st, LastCode(st).(description := desc)))
  {
    hide Feed, SetCode, LastCode, State.HasCode, ScanName, ScanWord;
    if desc == [] {
      SetTwice(st, LastCode(st), LastCode(st));
    } else {
      DescIsRead(st, desc);
      OneLine(st, "DESC " + desc + "\n", SetCode(st, LastCode(st).(description := desc)));
    }
  }

  function WithCodes(st: State, codes: seq<Code>): (r: State)
    requires st.Valid()
    ensures r.Valid()
    decreases |codes|
  {
    if codes == [] then st else WithCodes(AddCode(st, codes[0]), codes[1..])
  }

  lemma {:induction false} CodesAreRead(st: State, codes: seq<Code>)
    requires st.Valid() && st.inCat && forall c <- codes :: GoodCode(c) && |c.words| % 2 == 0
    ensures FeedLines(st, AllCodeLines(codes)) == Ok(WithCodes(st, codes))
    decreases |codes|
  {
    hide Feed, AddCode, CodeLines, FeedLines, GoodCode;
    if codes == [] {
      NoLines(st);
    } else {
      CodeLinesAreRead(st, codes[0]);
      FeedBoth(st, CodeLines(codes[0]), AllCodeLines(codes[1..]));
      AddCodeFlags(st, codes[0]);
      CodesAreRead(AddCode(st, codes[0]), codes[1..]);
    }
  }

  lemma NoLines(st: State)
    requires st.Valid()
    ensures FeedLines(st, []) == Ok(st)
  {
  }

  /** Codes in a category are added at its end. */
  lemma {:induction false} CodesInCategory(st: State, codes: seq<Code>)
    requires st.Valid() && !st.atRoot
    ensures var cat := Last(st.items);
            WithCodes(st, codes).items == SetLast(st.items, cat.(codes := cat.codes + codes))
            && WithCodes(st, codes).inCat == st.inCat && !WithCodes(st, codes).atRoot
    decreases |codes|
  {
    var cat := Last(st.items);
    if codes == [] {
      assert cat.codes + codes == cat.codes;
    } else {
      var next := AddCode(st, codes[0]);
      CodesInCategory(next, codes[1..]);
      assert next.items[..|next.items| - 1] == st.items[..|st.items| - 1];
      assert cat.codes + [codes[0]] + codes[1..] == cat.codes + codes;
    }
  }

  lemma CategoryIsRead(st: State, cat: Item)
    requires st.Valid() && cat.Category? && GoodItem(cat) && forall c <- cat.codes :: |c.words| % 2 == 0
    ensures var head := ["CAT " + Flag(cat.onlyOne) + " " + cat.name + "\n"];
            var r := FeedLines(st, head + DescLines(cat.description) + ["\n"] + AllCodeLines(cat.codes));
            r.Ok? && r.st.items == st.items + [cat] && r.st.inCat && !r.st.atRoot
  {
    hide Feed, FeedLines, DescLines, CodeLines, AllCodeLines, State.Valid, WithCodes;
    var head := ["CAT " + Flag(cat.onlyOne) + " " + cat.name + "\n"];
    var rest := DescLines(cat.description) + ["\n"] + AllCodeLines(cat.codes);
    var bare := State(st.items + [Category(cat.name, "", cat.onlyOne, [])], true, false, false, 1);
    var named := State(st.items + [cat.(codes := [])], true, false, false, 1);
    CatIsRead(st, cat.onlyOne, cat.name);
    OneLine(st, head[0], bare);
    FeedBoth(st, head, rest);
    CatDescIsAdded(bare, cat.description);
    assert SetLast(bare.items, Last(bare.items).(description := cat.description)) == named.items;
    FeedBoth(bare, DescLines(cat.description), ["\n"] + AllCodeLines(cat.codes));
    RootIsRead(named);
    OneLine(named, "\n", named);
    FeedBoth(named, ["\n"], AllCodeLines(cat.codes));
    CodesAreRead(named, cat.codes);
    CodesInCategory(named, cat.codes);
    assert [] + cat.codes == cat.codes;
    assert rest == DescLines(cat.description) + (["\n"] + AllCodeLines(cat.codes));
    assert head + DescLines(cat.description) + ["\n"] + AllCodeLines(cat.codes) == head + rest;
  }

  lemma CatDescIsAdded(st: State, desc: string)
    requires st.Valid() && st.last == 1 && GoodDescription(desc) && Last(st.items).description == []
    ensures FeedLines(st, DescLines(desc)) == Ok(st.(items := SetLast(st.items, Last(st.items).(description := desc))))
  {
    hide Feed, ScanName, ScanWord;
    if desc == [] {
      assert st.items == st.items[..|st.items| - 1] + [Last(st.items)];
      assert Last(st.items).(description := desc) == Last(st.items);
    } else {
      DescIsRead(st, desc);
      OneLine(st, "DESC " + desc + "\n", st.(items := SetLast(st.items, Last(st.items).(description := desc))));
    }
  }

  lemma SingleIsRead(st: State, c: Code, inCat: bool)
    requires st.Valid() && GoodCode(c) && (inCat || (st.inCat && st.atRoot))
    ensures var r := FeedLines(st, (if inCat then ["ROOT\n", "\n"] else []) + CodeLines(c));
            r.Ok? && r.st.items == st.items + [Single(c)] && r.st.inCat && r.st.atRoot
  {
    hide Feed, FeedLines, CodeLines;
    var root := if inCat then st.(inCode := false, inCat := true, atRoot := true, last := 0) else st;
    if inCat {
      RootIsRead(st);
      RootIsRead(root);
      OneLine(st, "ROOT\n", root);
      OneLine(root, "\n", root);
      FeedBoth(st, ["ROOT\n"], ["\n"]);
      assert ["ROOT\n"] + ["\n"] == ["ROOT\n", "\n"];
      FeedBoth(st, ["ROOT\n", "\n"], CodeLines(c));
    } else {
      assert [] + CodeLines(c) == CodeLines(c);
    }
    CodeLinesAreRead(root, c);
  }

  lemma {:induction false} ListIsRead(st: State, items: seq<Item>, inCat: bool)
    requires st.Valid() && (forall item <- items :: GoodItem(item) && EvenWords(item))
    requires inCat || (st.inCat && st.atRoot)
    ensures var r := FeedLines(st, ListLines(items, inCat)); r.Ok? && r.st.items == st.items + items
    decreases |items|
  {
    hide Feed, FeedLines, CodeLines, DescLines, AllCodeLines, GoodItem, EvenWords;
    if items == [] {
      NoLines(st);
      assert st.items + items == st.items;
    } else {
      var rest := ListLines(items[1..], items[0].Category?);
      var lines := FirstLines(items[0], inCat);
      FirstIsRead(st, items[0], inCat);
      ListLinesAre(items, inCat);
      FeedBoth(st, lines, rest);
      var next := FeedLines(st, lines).st;
      ListIsRead(next, items[1..], items[0].Category?);
      assert st.items + [items[0]] + items[1..] == st.items + items;
    }
  }

  function FirstLines(item: Item, inCat: bool): seq<string>
    requires EvenWords(item)
  {
    match item
    case Category(name, desc, onlyOne, codes) =>
      ["CAT " + Flag(onlyOne) + " " + name + "\n"] + DescLines(desc) + ["\n"] + AllCodeLines(codes)
    case Single(c) => (if inCat then ["ROOT\n", "\n"] else []) + CodeLines(c)
  }

  lemma ListLinesAre(items: seq<Item>, inCat: bool)
    requires items != [] && forall item <- items :: EvenWords(item)
    ensures EvenWords(items[0])
    ensures ListLines(items, inCat) == FirstLines(items[0], inCat) + ListLines(items[1..], items[0].Category?)
  {
  }

  lemma FirstIsRead(st: State, item: Item, inCat: bool)
    requires st.Valid() && GoodItem(item) && EvenWords(item) && (inCat || (st.inCat && st.atRoot))
    ensures var r := FeedLines(st, FirstLines(item, inCat));
            && r.Ok? && r.st.items == st.items + [item]
            && (!item.Category? ==> r.st.inCat && r.st.atRoot)
  {
    hide FeedLines, CodeLines, DescLines, AllCodeLines;
    match item
    case Category(_, _, _, _) => CategoryIsRead(st, item);
    case Single(c) => SingleIsRead(st, c, inCat);
  }

  lemma HexHasNoBreak(v: u32)
    ensures forall i | 0 <= i < 8 :: Hex(v, 8)[i] != '\n'
  {
    hide Hex, Pow16;
    EightDigits();
    HexIsHex(v, 8);
    assert forall i | 0 <= i < 8 :: IsCapitalHex(Hex(v, 8)[i]);
  }

  lemma {:induction false} WordLinesAreLines(words: seq<u32>)
    requires |words| % 2 == 0
    ensures forall l <- WordLines(words) :: IsLine(l)
    decreases |words|
  {
    hide Hex;
    if words != [] {
      HexHasNoBreak(words[0]);
      HexHasNoBreak(words[1]);
      WordLinesAreLines(words[2..]);
      assert IsLine(Hex(words[0], 8) + " " + Hex(words[1], 8) + "\n");
    }
  }

  /** A keyword, a name and a newline. */
  lemma TextIsLine(head: string, text: string)
    requires |head| <= 8 && (forall c <- head :: c != '\n') && |text| <= 255 && Printable(text)
    ensures IsLine(head + text + "\n")
  {
    var line := head + text + "\n";
    forall i | 0 <= i < |line| - 1 ensures line[i] != '\n' {
      if i < |head| {
        assert line[i] == head[i] && head[i] in head;
      } else {
        assert line[i] == text[i - |head|] && text[i - |head|] in text;
      }
    }
  }

  lemma CodeLinesAreLines(c: Code)
    requires GoodCode(c)
    ensures forall l <- CodeLines(c) :: IsLine(l)
  {
    hide WordLines, IsLine;
    TextIsLine("CODE " + Flag(c.enabled) + " ", c.name);
    TextIsLine("DESC ", c.description);
    WordLinesAreLines(c.words);
    assert IsLine("\n") by { TextIsLine("", ""); assert "" + "" + "\n" == "\n"; }
  }

  lemma {:induction false} AllCodeLinesAreLines(codes: seq<Code>)
    requires forall c <- codes :: GoodCode(c) && |c.words| % 2 == 0
    ensures forall l <- AllCodeLines(codes) :: IsLine(l)
    decreases |codes|
  {
    hide CodeLines, IsLine, GoodCode;
    if codes != [] {
      CodeLinesAreLines(codes[0]);
      AllCodeLinesAreLines(codes[1..]);
    }
  }

  lemma FirstLinesAreLines(item: Item, inCat: bool)
    requires GoodItem(item) && EvenWords(item)
    ensures forall l <- FirstLines(item, inCat) :: IsLine(l)
  {
    hide CodeLines, AllCodeLines, IsLine, GoodCode;
    assert IsLine("\n") by { TextIsLine("", ""); assert "" + "" + "\n" == "\n"; }
    assert IsLine("ROOT\n") by { TextIsLine("ROOT", ""); assert "ROOT" + "" + "\n" == "ROOT\n"; }
    match item
    case Category(name, desc, onlyOne, codes) =>
      TextIsLine("CAT " + Flag(onlyOne) + " ", name);
      TextIsLine("DESC ", desc);
      AllCodeLinesAreLines(codes);
    case Single(c) => CodeLinesAreLines(c);
  }

  lemma {:induction false} ListLinesAreLines(items: seq<Item>, inCat: bool)
    requires forall item <- items :: GoodItem(item) && EvenWords(item)
    ensures forall l <- ListLines(items, inCat) :: IsLine(l)
    decreases |items|
  {
    hide FirstLines, IsLine, GoodItem, EvenWords;
    if items != [] {
      ListLinesAre(items, inCat);
      FirstLinesAreLines(items[0], inCat);
      ListLinesAreLines(items[1..], items[0].Category?);
    }
  }

  lemma GoodIsEven(items: seq<Item>)
    requires forall item <- items :: GoodItem(item)
    ensures forall item <- items :: EvenWords(item)
  {
  }

  /** Loading what was saved gives the list, with at most one enabled code where only one is allowed. */
  lemma LoadOfSave(items: seq<Item>)
    requires forall item <- items :: GoodItem(item)
    ensures forall item <- items :: EvenWords(item)
    ensures Parsed(Printed(items)) == Some(FinalizedList(items))
  {
    hide ListLines, FeedText, FeedLines, Join, FinalizedList, IsLine, GoodItem, EvenWords;
    GoodIsEven(items);
    ListLinesAreLines(items, true);
    TextIsLines(START, ListLines(items, true));
    ListIsRead(START, items, true);
    assert [] + items == items;
  }

  /** A list that was loaded or finalized before comes back as it is. */
  lemma LoadOfSaveAgain(items: seq<Item>)
    requires forall item <- items :: GoodItem(item)
    ensures (forall item <- FinalizedList(items) :: GoodItem(item) && EvenWords(item))
    ensures Parsed(Printed(FinalizedList(items))) == Some(FinalizedList(items))
  {
    hide Parsed, Printed;
    FinalizedIsGood(items);
    LoadOfSave(FinalizedList(items));
    FinalizedTwice(items);
  }

  lemma {:induction false} FinalizedIsGood(items: seq<Item>)
    requires forall item <- items :: GoodItem(item)
    ensures forall item <- FinalizedList(items) :: GoodItem(item)
    decreases |items|
  {
    hide GoodItem, Finalized;
    if items != [] {
      FinalizedIsGood(items[1..]);
      FinalizedItemIsGood(items[0]);
    }
  }

  lemma FinalizedItemIsGood(item: Item)
    requires GoodItem(item)
    ensures GoodItem(Finalized(item))
  {
    hide GoodName, GoodDescription;
    if item.Category? {
      OnlyFirstStays(item.codes, false);
      assert forall i | 0 <= i < |item.codes| :: GoodCode(item.codes[i]);
    }
  }

  // ----- the code file -----

  class ARCodeFile {
    var children: seq<Item>
    var error: bool

    /** A file that does not exist is not an error. */
    constructor (file: Option<string>)
      ensures file.None? ==> !error && children == []
      ensures file.Some? ==> error == Parsed(file.value).None?
      ensures file.Some? && !error ==> children == Parsed(file.value).value
    {
      children := [];
      error := false;
      new;
      var ok := Load(file);
      if !ok { error := true; }
    }

    /** A malformed file leaves what was parsed before the bad line. */
    method Load(file: Option<string>) returns (ok: bool)
      modifies this`children
      ensures file.None? ==> ok && children == old(children)
      ensures file.Some? ==> ok == Parsed(file.value).Some?
      ensures file.Some? ==>
                children == match FeedText(START, file.value) case Ok(_) => Parsed(file.value).value case Err(items) => items
    {
      hide Feed, FinalizedList;
      if file.None? { return true; }
      var text := file.value;
      var st := START;
      children := [];
      while text != []
        invariant st.Valid() && st.items == children && FeedText(st, text) == FeedText(START, file.value)
        decreases |text|
      {
        var n := LineLength(text, 1023);
        var r := Feed(st, text[..n]);
        if r.Err? {
          children := r.items;
          return false;
        }
        st := r.st;
        children := st.items;
        text := text[n..];
      }
      FinalizeList();
      return true;
    }

    /** Disables every enabled code but the first in each category that allows one. */
    method FinalizeList()
      modifies this`children
      ensures children == FinalizedList(old(children))
    {
      hide FinalizedList, OneEnabled;
      FinalizedCategories(children);
      ghost var before := children;
      for i := 0 to |children|
        invariant |children| == |before| && i <= |children|
        invariant forall k | 0 <= k < i :: children[k] == Finalized(before[k])
        invariant forall k | i <= k < |before| :: children[k] == before[k]
      {
        var cat := children[i];
        if cat.Category? && cat.onlyOne {
          var codes := EnableOne(cat.codes);
          children := children[i := cat.(codes := codes)];
        }
      }
      assert children == FinalizedList(before);
    }

    static method EnableOne(before: seq<Code>) returns (codes: seq<Code>)
      ensures codes == OneEnabled(before, false)
    {
      hide OneEnabled, Enabled;
      codes := before;
      var foundone := false;
      NoneEnabled();
      for j := 0 to |codes|
        invariant |codes| == |before|
        invariant foundone == (Enabled(before[..j]) > 0)
        invariant forall k | 0 <= k < j ::
                    codes[k] == before[k].(enabled := before[k].enabled && Enabled(before[..k]) == 0)
        invariant forall k | j <= k < |before| :: codes[k] == before[k]
      {
        EnabledMore(before, j);
        if codes[j].enabled {
          if foundone {
            codes := codes[j := codes[j].(enabled := false)];
          } else {
            foundone := true;
          }
        }
      }
      OnlyFirstStays(before, false);
    }

    method Save() returns (text: string)
      requires forall item <- children :: EvenWords(item)
      ensures text == Printed(children)
    {
      hide FirstLines, ListLines, Join, EvenWords;
      text := "";
      var isincat := true;
      for i := 0 to |children|
        invariant text + Join(ListLines(children[i..], isincat)) == Printed(children)
      {
        ListLinesAre(children[i..], isincat);
        JoinBoth(FirstLines(children[i], isincat), ListLines(children[i..][1..], children[i].Category?));
        assert children[i..][1..] == children[i + 1..];
        var item := PrintItem(children[i], isincat);
        text := text + item;
        isincat := children[i].Category?;
      }
      assert children[|children|..] == [];
      NothingPrinted(isincat);
    }

    static method PrintItem(item: Item, isincat: bool) returns (text: string)
      requires EvenWords(item)
      ensures text == Join(FirstLines(item, isincat))
    {
      hide CodeLines, DescLines, Join;
      match item
      case Category(name, description, onlyOne, codes) =>
        var head := "CAT " + Flag(onlyOne) + " " + name + "\n";
        var desc := PrintDescription(description);
        text := head + desc + "\n";
        JoinParts([head] + DescLines(description) + ["\n"], AllCodeLines(codes), head, DescLines(description));
        for j := 0 to |codes|
          invariant text + Join(AllCodeLines(codes[j..])) == Join(FirstLines(item, isincat))
        {
          JoinBoth(CodeLines(codes[j]), AllCodeLines(codes[j..][1..]));
          assert codes[j..][1..] == codes[j + 1..];
          var code := PrintCode(codes[j]);
          text := text + code;
        }
        assert codes[|codes|..] == [];
        NothingPrinted(isincat);
      case Single(c) =>
        text := "";
        if isincat {
          text := text + "ROOT\n\n";
          JoinBoth(["ROOT\n", "\n"], CodeLines(c));
          JoinBoth(["ROOT\n"], ["\n"]);
          JoinOne("ROOT\n");
          JoinOne("\n");
          assert ["ROOT\n"] + ["\n"] == ["ROOT\n", "\n"];
        } else {
          assert [] + CodeLines(c) == CodeLines(c);
        }
        var code := PrintCode(c);
        text := text + code;
    }

    static method PrintCode(c: Code) returns (text: string)
      requires |c.words| % 2 == 0
      ensures text == Join(CodeLines(c))
    {
      hide Hex, DescLines, CodeLines, Join;
      var head := "CODE " + Flag(c.enabled) + " " + c.name + "\n";
      var desc := PrintDescription(c.description);
      text := head + desc;
      CodeText(c);
      assert c.words[0..] == c.words;
      var i := 0;
      while i < |c.words|
        invariant 0 <= i <= |c.words| && i % 2 == 0
        invariant text + Join(WordLines(c.words[i..])) + "\n" == Join(CodeLines(c))
      {
        WordText(c.words, i);
        text := text + Hex(c.words[i], 8) + " " + Hex(c.words[i + 1], 8) + "\n";
        i := i + 2;
      }
      NoWordText(c.words);
      text := text + "\n";
    }

    static method PrintDescription(description: string) returns (text: string)
      ensures text == Join(DescLines(description))
    {
      text := "";
      if description != [] {
        text := "DESC " + description + "\n";
        JoinOne(text);
      }
    }
  }

  lemma {:induction false} EnabledMore(codes: seq<Code>, j: nat)
    requires j < |codes|
    ensures Enabled(codes[..j + 1]) == Enabled(codes[..j]) + if codes[j].enabled then 1 else 0
  {
    if j > 0 {
      EnabledMore(codes[1..], j - 1);
      assert codes[..j + 1][1..] == codes[1..][..j] && codes[..j][1..] == codes[1..][..j - 1];
    }
  }

  lemma {:induction false} JoinBoth(first: seq<string>, then_: seq<string>)
    ensures Join(first + then_) == Join(first) + Join(then_)
    decreases |first|
  {
    if first == [] {
      assert first + then_ == then_;
    } else {
      assert (first + then_)[1..] == first[1..] + then_;
      JoinBoth(first[1..], then_);
    }
  }

  lemma CodeText(c: Code)
    requires |c.words| % 2 == 0
    ensures Join(CodeLines(c)) ==
            "CODE " + Flag(c.enabled) + " " + c.name + "\n" + Join(DescLines(c.description)) + Join(WordLines(c.words)) + "\n"
  {
    hide Join, DescLines, WordLines;
    var head := "CODE " + Flag(c.enabled) + " " + c.name + "\n";
    JoinBoth([head] + DescLines(c.description) + WordLines(c.words), ["\n"]);
    JoinBoth([head] + DescLines(c.description), WordLines(c.words));
    JoinBoth([head], DescLines(c.description));
    JoinOne(head);
    JoinOne("\n");
  }

  lemma WordText(words: seq<u32>, i: nat)
    requires |words| % 2 == 0 && i % 2 == 0 && i < |words|
    ensures Join(WordLines(words[i..])) == Hex(words[i], 8) + " " + Hex(words[i + 1], 8) + "\n" + Join(WordLines(words[i + 2..]))
  {
    hide Hex;
    assert words[i..][2..] == words[i + 2..];
  }

  lemma NoWordText(words: seq<u32>)
    requires |words| % 2 == 0
    ensures Join(WordLines(words[|words|..])) == ""
  {
  }

  lemma NothingPrinted(inCat: bool)
    ensures Join(ListLines([], inCat)) == "" && Join(AllCodeLines([])) == ""
  {
  }

  lemma NoneEnabled()
    ensures forall codes: seq<Code> :: Enabled(codes[..0]) == 0
  {
  }

  lemma JoinOne(line: string)
    ensures Join([line]) == line
  {
    assert [line][1..] == [];
  }

  lemma JoinParts(lines: seq<string>, rest: seq<string>, head: string, desc: seq<string>)
    requires lines == [head] + desc + ["\n"]
    ensures Join(lines + rest) == head + Join(desc) + "\n" + Join(rest)
  {
    hide Join;
    JoinBoth(lines, rest);
    JoinBoth([head] + desc, ["\n"]);
    JoinBoth([head], desc);
    JoinOne(head);
    JoinOne("\n");
  }
}
