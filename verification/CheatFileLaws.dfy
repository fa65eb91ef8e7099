/**
  What the cheat code file reader makes of lines that are not as the printer writes them: comments and blank lines,
  keywords in small letters, categories without a number, other numbers, hexadecimal digits in small letters, and
  malformed lines.
*/
module CheatFileLaws {
  import opened CheatFile

  predicate Blank(c: char) { c == ' ' || c == '\t' }

  lemma {:induction false} BlanksGo(blanks: string, line: string)
    requires (forall c <- blanks :: Blank(c)) && (line == [] || !Blank(line[0]))
    ensures SkipBlanks(blanks + line) == line
    decreases |blanks|
  {
    if blanks == [] {
      assert blanks + line == line;
    } else {
      assert blanks[0] in blanks && (blanks + line)[0] == blanks[0] && (blanks + line)[1..] == blanks[1..] + line;
      BlanksGo(blanks[1..], line);
    }
  }

  /** Blanks in front of a line make no difference. */
  lemma BlanksAreSkipped(st: State, blanks: string, line: string)
    requires st.Valid() && (forall c <- blanks :: Blank(c)) && (line == [] || !Blank(line[0]))
    ensures Feed(st, blanks + line) == Feed(st, line)
  {
    hide CatLine, CodeLine, DescLine, DataLine, StartsLike, SkipBlanks;
    BlanksGo(blanks, line);
    BlanksGo("", line);
    assert "" + line == line;
  }

  /** Empty lines and comments change nothing. */
  lemma CommentIsSkipped(st: State, line: string)
    requires st.Valid() && (line == [] || line[0] == '#' || line[0] == '\n' || line[0] == '\r' || line[0] == '\0')
    ensures Feed(st, line) == Ok(st)
  {
    hide CatLine, CodeLine, DescLine, DataLine, StartsLike, SkipBlanks;
    BlanksGo("", line);
    assert "" + line == line;
  }

  /** `w` is a keyword in capital or small letters, or both. */
  predicate Spells(w: string, capitals: string, small: string) {
    |w| == |capitals| == |small| && forall i | 0 <= i < |w| :: w[i] == capitals[i] || w[i] == small[i]
  }

  /** A line that is no comment goes by the keyword it starts with. */
  lemma NoComment(st: State, line: string)
    requires st.Valid() && line != [] && 'A' <= Upper(line[0]) <= 'Z'
    ensures Feed(st, line) ==
            if StartsLike(line, "ROOT") then Ok(st.(inCode := false, inCat := true, atRoot := true, last := 0))
            else if StartsLike(line, "CAT") then CatLine(st, line)
            else if StartsLike(line, "CODE") then CodeLine(st, line)
            else if StartsLike(line, "DESC") then DescLine(st, line)
            else DataLine(st, line)
  {
    hide CatLine, CodeLine, DescLine, DataLine, SkipBlanks, StartsLike;
    BlanksGo("", line);
    assert "" + line == line;
  }

  lemma SpelledLetters(w: string, capitals: string, small: string, rest: string)
    requires Spells(w, capitals, small) && w != [] && (forall i | 0 <= i < |w| :: 'A' <= capitals[i] <= 'Z')
    requires forall i | 0 <= i < |w| :: 'a' <= small[i] <= 'z' && small[i] as int == capitals[i] as int + 32
    ensures StartsLike(w + rest, capitals) && forall i | 0 <= i < |w| :: (w + rest)[i] == w[i] && Upper(w[i]) == capitals[i]
  {
    assert forall i | 0 <= i < |w| :: (w + rest)[i] == w[i];
  }

  lemma CatKeyword(st: State, w: string, rest: string)
    requires st.Valid() && Spells(w, "CAT", "cat")
    ensures Feed(st, w + rest) == CatLine(st, w + rest)
  {
    hide CatLine, CodeLine, DescLine, DataLine, Feed, Upper;
    SpelledLetters(w, "CAT", "cat", rest);
    NoComment(st, w + rest);
    assert !StartsLike(w + rest, "ROOT") by { assert Upper((w + rest)[0]) != "ROOT"[0]; }
  }

  lemma CodeKeyword(st: State, w: string, rest: string)
    requires st.Valid() && Spells(w, "CODE", "code")
    ensures Feed(st, w + rest) == CodeLine(st, w + rest)
  {
    hide CatLine, CodeLine, DescLine, DataLine, Feed, Upper;
    SpelledLetters(w, "CODE", "code", rest);
    NoComment(st, w + rest);
    assert !StartsLike(w + rest, "ROOT") by { assert Upper((w + rest)[0]) != "ROOT"[0]; }
    assert !StartsLike(w + rest, "CAT") by { assert Upper((w + rest)[1]) != "CAT"[1]; }
  }

  lemma DescKeyword(st: State, w: string, rest: string)
    requires st.Valid() && Spells(w, "DESC", "desc")
    ensures Feed(st, w + rest) == DescLine(st, w + rest)
  {
    hide CatLine, CodeLine, DescLine, DataLine, Feed, Upper;
    SpelledLetters(w, "DESC", "desc", rest);
    NoComment(st, w + rest);
    assert !StartsLike(w + rest, "ROOT") by { assert Upper((w + rest)[0]) != "ROOT"[0]; }
    assert !StartsLike(w + rest, "CAT") by { assert Upper((w + rest)[0]) != "CAT"[0]; }
    assert !StartsLike(w + rest, "CODE") by { assert Upper((w + rest)[0]) != "CODE"[0]; }
  }

  /** ROOT, in any letters, goes back to the root. */
  lemma RootInAnyLetters(st: State, w: string, rest: string)
    requires st.Valid() && Spells(w, "ROOT", "root")
    ensures Feed(st, w + rest) == Ok(st.(inCode := false, inCat := true, atRoot := true, last := 0))
  {
    hide CatLine, CodeLine, DescLine, DataLine, Feed, Upper;
    SpelledLetters(w, "ROOT", "root", rest);
    NoComment(st, w + rest);
  }

  /** The other keywords are found in any letters, but their lines are scanned for capitals: CAT and CODE lines in
      other letters are malformed, DESC lines are ignored. */
  lemma SmallKeywords(st: State, w: string, rest: string)
    requires st.Valid()
    ensures Spells(w, "CAT", "cat") && w != "CAT" ==> Feed(st, w + rest) == Err(st.items)
    ensures Spells(w, "CODE", "code") && w != "CODE" ==> Feed(st, w + rest) == Err(st.items)
    ensures Spells(w, "DESC", "desc") && w != "DESC" ==> Feed(st, w + rest) == Ok(st)
  {
    hide Feed, ScanFlag, ScanName, SetCode, LastCode;
    if Spells(w, "CAT", "cat") { CatKeyword(st, w, rest); }
    if Spells(w, "CODE", "code") { CodeKeyword(st, w, rest); }
    if Spells(w, "DESC", "desc") { DescKeyword(st, w, rest); }
    assert (w + rest)[..|w|] == w;
    if "CAT" <= w + rest { assert (w + rest)[..3] == "CAT"; }
    if "CODE" <= w + rest { assert (w + rest)[..4] == "CODE"; }
    if "DESC" <= w + rest { assert (w + rest)[..4] == "DESC"; }
  }

  /** "0 " or "1 " at the start. */
  predicate LooksNumbered(s: string) { |s| >= 2 && (s[0] == '0' || s[0] == '1') && s[1] == ' ' }

  /** An old CAT line, without a number: any number of codes may be enabled. */
  lemma OldCategory(st: State, name: string)
    requires st.Valid() && GoodName(name) && !LooksNumbered(name)
    ensures Feed(st, "CAT " + name + "\n") == Ok(State(st.items + [Category(name, "", false, [])], true, false, false, 1))
  {
    hide Feed, ScanFlag, ScanName;
    var rest := " " + name + "\n";
    var line := "CAT" + rest;
    assert line == "CAT " + name + "\n";
    CatKeyword(st, "CAT", rest);
    assert line[3..] == rest && line[4] == name[0] && (|name| >= 2 ==> line[5] == name[1]) && (|name| == 1 ==> line[5] == '\n');
    NameIsScanned(name, 127);
  }

  /** A CAT line without a name is malformed. */
  lemma NamelessCategory(st: State)
    requires st.Valid()
    ensures Feed(st, "CAT\n") == Err(st.items)
  {
    hide Feed;
    CatKeyword(st, "CAT", "\n");
    assert "CAT" + "\n" == "CAT\n" && "CAT\n"[3..] == "\n";
    assert SkipSpace("\n") == SkipSpace("\n"[1..]) && "\n"[1..] == "";
  }

  predicate AllDigits(s: string) { s != [] && forall c <- s :: '0' <= c <= '9' }

  lemma {:induction false} DigitsTaken(s: string, rest: string)
    requires (forall c <- s :: '0' <= c <= '9') && (rest == [] || !('0' <= rest[0] <= '9'))
    ensures Digits(s + rest) == s
    decreases |s|
  {
    if s == [] {
      assert s + rest == rest;
    } else {
      assert s[0] in s && (s + rest)[0] == s[0] && (s + rest)[1..] == s[1..] + rest;
      assert forall c <- s[1..] :: c in s;
      DigitsTaken(s[1..], rest);
      assert [s[0]] + s[1..] == s;
    }
  }

  lemma {:induction false} ZeroIsZeros(s: string)
    requires forall c <- s :: IsDigit(c)
    ensures Value(s) == 0 <==> forall c <- s :: c == '0'
    decreases |s|
  {
    if s != [] {
      var front, last := s[..|s| - 1], s[|s| - 1];
      assert s == front + [last] && last in s && forall c <- front :: c in s;
      ZeroIsZeros(front);
      assert DigitValue(last) == 0 <==> last == '0';
      assert Value(s) == Value(front) * 10 + DigitValue(last);
    }
  }

  /** The flag of a line may be any decimal number, with a sign or without; all but zero mean yes. */
  lemma AnyNumberIsScanned(sign: string, s: string, rest: string)
    requires AllDigits(s) && (sign == "" || sign == "+" || sign == "-")
    ensures ScanFlag(" " + (sign + (s + (" " + rest)))) == Some((exists c :: c in s && c != '0', " " + rest))
  {
    hide Value;
    var u := s + (" " + rest);
    var t := sign + u;
    assert (" " + t)[1..] == t && u[0] == s[0] && s[0] in s;
    assert t == if sign == "" then u else [sign[0]] + u;
    assert t[0] == if sign == "" then u[0] else sign[0];
    assert SkipSpace(t) == t && SkipSpace(" " + t) == SkipSpace(t);
    assert sign != "" ==> t[1..] == u;
    DigitsTaken(s, " " + rest);
    DigitsAre(u);
    ZeroIsZeros(s);
    assert u[|s|..] == " " + rest;
  }

  /** A CODE line with any number; before the first category it is an error. */
  lemma CodeWithNumber(st: State, sign: string, number: string, name: string)
    requires st.Valid() && AllDigits(number) && (sign == "" || sign == "+" || sign == "-") && GoodName(name)
    ensures Feed(st, "CODE " + sign + number + " " + name + "\n") ==
            if st.inCat then Ok(AddCode(st, Code(name, "", exists c :: c in number && c != '0', []))) else Err(st.items)
  {
    hide Feed, ScanFlag, ScanName, AddCode;
    var rest := " " + (sign + (number + (" " + (name + "\n"))));
    var line := "CODE" + rest;
    assert line == "CODE " + sign + number + " " + name + "\n";
    CodeKeyword(st, "CODE", rest);
    assert line[4..] == rest;
    AnyNumberIsScanned(sign, number, name + "\n");
    assert " " + (name + "\n") == " " + name + "\n";
    NameIsScanned(name, 127);
  }

  /** A file starts outside all categories: a code before the first CAT or ROOT line is an error, and so are a
      description and data. */
  lemma StartsOutside(number: string, name: string, s: string, v: u32, t: string, w: u32)
    requires AllDigits(number) && GoodName(name) && GoodDescription(name)
    requires 1 <= |s| <= 8 && Writes(s, v) && 1 <= |t| <= 8 && Writes(t, w)
    ensures Feed(START, "CODE " + "" + number + " " + name + "\n") == Err([])
    ensures Feed(START, "DESC " + name + "\n") == Err([])
    ensures Feed(START, s + " " + t + "\n") == Err([])
  {
    hide Feed, Writes;
    CodeWithNumber(START, "", number, name);
    DescriptionGoes(START, name);
    DataInAnyLetters(START, s, v, t, w, "\n");
  }

  /** A CODE line without a number is malformed. */
  lemma CodeWithoutNumber(st: State, name: string)
    requires st.Valid() && GoodName(name) && name[0] != '-' && name[0] != '+' && !('0' <= name[0] <= '9')
    ensures Feed(st, "CODE " + name + "\n") == Err(st.items)
  {
    hide Feed, ScanName, AddCode, Value;
    var rest := " " + name + "\n";
    var line := "CODE" + rest;
    assert line == "CODE " + name + "\n";
    CodeKeyword(st, "CODE", rest);
    var t := name + "\n";
    assert line[4..] == rest && rest[1..] == t && t[0] == name[0];
    assert SkipSpace(t) == t && SkipSpace(rest) == SkipSpace(t);
    assert Digits(t) == [];
  }

  /** A description goes to the category or code of the line before; after ROOT it is an error, and without text
      it is ignored. */
  lemma DescriptionGoes(st: State, desc: string)
    requires st.Valid() && GoodDescription(desc)
    ensures Feed(st, "DESC " + desc + "\n") ==
            if desc == [] then Ok(st)
            else if st.last == 2 then Ok(SetCode(st, LastCode(st).(description := desc)))
            else if st.last == 1 then Ok(st.(items := SetLast(st.items, Last(st.items).(description := desc))))
            else Err(st.items)
  {
    hide Feed, SetCode, LastCode, ScanName;
    if desc != [] {
      DescIsRead(st, desc);
    } else {
      assert "DESC" + " \n" == "DESC " + desc + "\n";
      DescKeyword(st, "DESC", " \n");
      assert "DESC \n"[4..] == " \n";
      NoName();
    }
  }

  lemma NoName()
    ensures ScanName(" \n", 255) == None
  {
    assert " \n"[1..] == "\n" && "\n"[1..] == "";
    assert SkipSpace(" \n") == SkipSpace("\n") == SkipSpace("");
  }

  // ----- hexadecimal numbers -----

  function Small(c: char): char { if 'A' <= c <= 'F' then (c as int + 32) as char else c }

  /** `s` is `v` in hexadecimal, in capital or small letters. */
  predicate Writes(s: string, v: nat) {
    v < Pow16(|s|) && forall i | 0 <= i < |s| :: s[i] == Hex(v, |s|)[i] || s[i] == Small(Hex(v, |s|)[i])
  }

  predicate IsHexDigit(c: char) { '0' <= c <= '9' || 'A' <= c <= 'F' || 'a' <= c <= 'f' }

  lemma DigitOf(c: char, d: char)
    requires IsCapitalHex(d) && (c == d || c == Small(d))
    ensures IsHexDigit(c) && HexValue(c) == HexValue(d) && HexValue(c).Some?
  {
  }

  lemma {:induction false} SameNumber(s: string, t: string)
    requires |s| == |t| && forall i | 0 <= i < |s| :: IsCapitalHex(t[i]) && (s[i] == t[i] || s[i] == Small(t[i]))
    ensures (forall c <- s :: IsHexDigit(c) && HexValue(c).Some?) && (forall c <- t :: HexValue(c).Some?)
    ensures HexNumber(s) == HexNumber(t)
    decreases |s|
  {
    hide HexValue;
    if s != [] {
      var n := |s| - 1;
      SameNumber(s[..n], t[..n]);
      DigitOf(s[n], t[n]);
      DigitOf(t[n], t[n]);
      assert s == s[..n] + [s[n]] && t == t[..n] + [t[n]];
    }
  }

  lemma {:induction false} RunStops(s: string, rest: string, width: nat)
    requires (forall c <- s :: HexValue(c).Some?) && |s| <= width
    requires |s| == width || rest == [] || HexValue(rest[0]).None?
    ensures HexRun(s + rest, width) == |s|
    decreases |s|
  {
    hide HexValue;
    if s == [] {
      assert s + rest == rest;
    } else {
      assert (s + rest)[0] == s[0] && (s + rest)[1..] == s[1..] + rest;
      RunStops(s[1..], rest, width - 1);
    }
  }

  lemma {:induction false} Pow16Grows(n: nat)
    requires n <= 8
    ensures Pow16(n) <= 0x1_0000_0000
    decreases 8 - n
  {
    if n < 8 {
      Pow16Grows(n + 1);
    } else {
      EightDigits();
    }
  }

  predicate HexPrefix(p: string) { p == "" || p == "0x" || p == "0X" }

  /** Hexadecimal digits in any letters, after a sign and a prefix or without, are scanned as the number they write, as
      far as eight characters go. */
  lemma SignedHexIsScanned(sign: string, prefix: string, s: string, v: nat, rest: string)
    requires (sign == "" || sign == "+" || sign == "-") && HexPrefix(prefix)
    requires s != [] && |sign| + |prefix| + |s| <= 8 && Writes(s, v)
    requires rest == [] || (|sign| + |prefix| + |s| == 8 && |s| > 1) || !(IsHexDigit(rest[0]) || rest[0] == 'x' || rest[0] == 'X')
    ensures v < 0x1_0000_0000
    ensures ScanHex(sign + (prefix + (s + rest))) ==
            Some((if sign == "-" then (0x1_0000_0000 - v) % 0x1_0000_0000 else v, rest))
  {
    hide Hex, HexPrefix, Writes, IsHexDigit, SkipSpace, At, ScanUnsigned;
    WrittenInHex(s, v);
    PrefixPart(prefix, s, rest);
    SignPart(sign, prefix + (s + rest));
    UnsignedIsScanned(prefix, s, v, rest, 8 - |sign|);
  }

  lemma UnsignedIsScanned(prefix: string, s: string, v: nat, rest: string, width: nat)
    requires HexPrefix(prefix) && s != [] && |prefix| + |s| <= width <= 8 && Writes(s, v)
    requires rest == [] || (|prefix| + |s| == width && |s| > 1) || !(IsHexDigit(rest[0]) || rest[0] == 'x' || rest[0] == 'X')
    ensures v < 0x1_0000_0000 && ScanUnsigned(prefix + (s + rest), width) == Some((v, rest))
  {
    hide Hex, HexRun, HexNumber, HexValue, HexPrefix, Writes, IsHexDigit, At;
    WrittenInHex(s, v);
    DigitsPart(s, v, rest, width - |prefix|);
    PrefixPart(prefix, s, rest);
    assert prefix != "" ==> |prefix| == 2 by { PrefixLength(prefix); }
  }

  lemma PrefixLength(prefix: string)
    requires HexPrefix(prefix)
    ensures |prefix| == if prefix == "" then 0 else 2
  {
  }

  lemma DigitsPart(s: string, v: nat, rest: string, width: nat)
    requires s != [] && |s| <= width <= 8 && Writes(s, v)
    requires rest == [] || |s| == width || !(IsHexDigit(rest[0]) || rest[0] == 'x' || rest[0] == 'X')
    ensures HexRun(s + rest, width) == |s| && (s + rest)[..|s|] == s && (s + rest)[|s|..] == rest
    ensures (forall c <- s :: HexValue(c).Some?) && HexNumber(s) == v && v < 0x1_0000_0000
  {
    hide Hex, HexRun, HexNumber, HexValue, Pow16, Small;
    Pow16Grows(|s|);
    HexIsHex(v, |s|);
    SameNumber(s, Hex(v, |s|));
    if rest != [] { NotHex(rest[0]); }
    RunStops(s, rest, width);
  }

  lemma PrefixPart(prefix: string, s: string, rest: string)
    requires HexPrefix(prefix) && s != [] && forall c <- s :: IsHexDigit(c)
    requires |s| >= 2 || rest == [] || !(rest[0] == 'x' || rest[0] == 'X')
    ensures var w, u := s + rest, prefix + (s + rest);
            && IsHexDigit(u[0]) && (prefix != "" ==> |u| >= 2 && u[2..] == w) && (prefix == "" ==> u == w)
            && (prefix != "" <==> At(u, 0) == '0' && (At(u, 1) == 'x' || At(u, 1) == 'X'))
  {
    var w, u := s + rest, prefix + (s + rest);
    assert s[0] in s && w[0] == s[0];
    if prefix == "" {
      assert u == w;
      if |s| > 1 { assert w[1] == s[1] && s[1] in s; }
    } else {
      assert u[0] == '0' && u[1] == prefix[1];
    }
  }

  lemma SignPart(sign: string, u: string)
    requires (sign == "" || sign == "+" || sign == "-") && u != [] && IsHexDigit(u[0])
    ensures var t := sign + u;
            && SkipSpace(t) == t && (At(t, 0) == '-' <==> sign == "-")
            && (At(t, 0) == '-' || At(t, 0) == '+' <==> sign != "")
            && (sign != "" ==> t[1..] == u) && (sign == "" ==> t == u)
  {
    Starts(sign, u);
  }

  lemma Starts(sign: string, u: string)
    requires (sign == "" || sign == "+" || sign == "-") && u != []
    ensures (sign + u)[0] == (if sign == "" then u[0] else sign[0])
    ensures if sign == "" then sign + u == u else (sign + u)[1..] == u
  {
  }

  lemma AnyHexIsScanned(s: string, v: nat, rest: string)
    requires 1 <= |s| <= 8 && Writes(s, v)
    requires rest == [] || !(IsHexDigit(rest[0]) || rest[0] == 'x' || rest[0] == 'X')
    ensures v < 0x1_0000_0000 && ScanHex(s + rest) == Some((v, rest))
  {
    hide ScanHex, Writes;
    SignedHexIsScanned("", "", s, v, rest);
    assert "" + ("" + (s + rest)) == s + rest;
  }

  lemma NotHex(c: char)
    ensures HexValue(c).None? <==> !IsHexDigit(c)
  {
  }

  /** A line that starts with a hexadecimal digit and then has only such digits and spaces is no keyword line. */
  lemma IsDataLine(st: State, line: string)
    requires st.Valid() && line != [] && IsHexDigit(line[0])
    requires forall i | 0 <= i < 4 && i < |line| :: IsHexDigit(line[i]) || line[i] == ' ' || line[i] == '\n'
    ensures Feed(st, line) == DataLine(st, line)
  {
    hide CatLine, CodeLine, DescLine, DataLine, SkipBlanks;
    BlanksGo("", line);
    assert "" + line == line;
    assert !StartsLike(line, "ROOT") by { assert Upper(line[0]) != "ROOT"[0]; }
    assert !StartsLike(line, "CAT") by { if |line| > 2 { assert Upper(line[2]) != "CAT"[2]; } }
    assert !StartsLike(line, "CODE") by { if |line| > 1 { assert Upper(line[1]) != "CODE"[1]; } }
    assert !StartsLike(line, "DESC") by { if |line| > 2 { assert Upper(line[2]) != "DESC"[2]; } }
  }

  /** A data line adds its two words to the code; outside a code it is an error. */
  lemma DataInAnyLetters(st: State, s: string, v: u32, t: string, w: u32, rest: string)
    requires st.Valid() && 1 <= |s| <= 8 && Writes(s, v) && 1 <= |t| <= 8 && Writes(t, w)
    requires rest != [] && (rest[0] == ' ' || rest[0] == '\n')
    ensures Feed(st, s + " " + t + rest) ==
            if st.inCode then Ok(SetCode(st, LastCode(st).(words := LastCode(st).words + [v, w]))) else Err(st.items)
  {
    hide Feed, Writes, ScanHex, SetCode, LastCode, IsHexDigit, IsCapitalHex, Hex;
    var line, tail := s + " " + t + rest, " " + (t + rest);
    assert line == s + tail;
    WrittenInHex(s, v);
    WrittenInHex(t, w);
    FirstFour(s, t, rest);
    IsDataLine(st, line);
    NoHex();
    AnyHexIsScanned(s, v, tail);
    BlankBeforeHex(t, rest);
    AnyHexIsScanned(t, w, rest);
  }

  lemma WrittenInHex(s: string, v: nat)
    requires Writes(s, v)
    ensures forall c <- s :: IsHexDigit(c)
  {
    hide Hex, Pow16, HexNumber;
    HexIsHex(v, |s|);
    SameNumber(s, Hex(v, |s|));
  }

  lemma NoHex()
    ensures !IsHexDigit(' ') && !IsHexDigit('\n')
  {
  }

  lemma FirstFour(s: string, t: string, rest: string)
    requires |s| >= 1 && |t| >= 1 && (forall c <- s + t :: IsHexDigit(c)) && rest != [] && (rest[0] == ' ' || rest[0] == '\n')
    ensures var line := s + " " + t + rest;
            IsHexDigit(line[0]) && forall i | 0 <= i < 4 :: IsHexDigit(line[i]) || line[i] == ' ' || line[i] == '\n'
  {
    hide IsHexDigit;
    var line := s + " " + t + rest;
    forall i | 0 <= i < 4 ensures IsHexDigit(line[i]) || line[i] == ' ' || line[i] == '\n' {
      if i < |s| {
        assert line[i] == s[i] && s[i] in s + t;
      } else if |s| < i <= |s| + |t| {
        assert line[i] == t[i - |s| - 1] && t[i - |s| - 1] in s + t;
      }
    }
    assert line[0] == s[0] && s[0] in s + t;
  }

  lemma BlankBeforeHex(t: string, rest: string)
    requires t != [] && IsHexDigit(t[0])
    ensures ScanHex(" " + (t + rest)) == ScanHex(t + rest)
  {
    hide HexRun, HexNumber;
    assert (" " + (t + rest))[1..] == t + rest && (t + rest)[0] == t[0];
    assert SkipSpace(" " + (t + rest)) == SkipSpace(t + rest);
  }

  /** One word alone is malformed. */
  lemma OneWordAlone(st: State, s: string, v: u32)
    requires st.Valid() && 1 <= |s| <= 8 && Writes(s, v)
    ensures Feed(st, s + "\n") == Err(st.items)
  {
    hide Feed, Writes, ScanHex, IsHexDigit, IsCapitalHex, Hex;
    WrittenInHex(s, v);
    NoHex();
    var line := s + "\n";
    assert forall i | 0 <= i < |s| :: line[i] == s[i];
    IsDataLine(st, line);
    AnyHexIsScanned(s, v, "\n");
    NoNumber();
  }

  lemma NoNumber()
    ensures ScanHex("\n") == None
  {
    assert "\n"[1..] == "";
    assert SkipSpace("\n") == SkipSpace("");
  }

  // ----- long lines -----

  /** A line is read up to and with its line break, or 1023 characters of it. */
  lemma {:induction false} LineIsCut(s: string, room: nat)
    requires s != [] && room > 0
    ensures var n := LineLength(s, room);
            && (forall i | 0 <= i < n - 1 :: s[i] != '\n')
            && (n == room || n == |s| || s[n - 1] == '\n')
    decreases |s|
  {
    if s[0] != '\n' && |s| > 1 && room > 1 {
      LineIsCut(s[1..], room - 1);
    }
  }
}
