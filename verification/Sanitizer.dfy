/** Making participant text safe to print (crates/observation/src/logs.rs).

    The scanner is specified by a grammar of terminal text: control sequences
    after section 5.4 of ECMA-48, operating-system strings after section 5.6 and
    8.3.89, both as this client accepts them. Every text is the rendering of
    exactly one well-formed token list, and sanitizing keeps its text tokens. */
module Sanitizer {

  const ESC := '\U{1B}'
  const BEL := '\U{07}'
  const MAX_LOG_TEXT_CHARS: nat := 4_096

  /** Unicode category Cc. */
  predicate IsControl(c: char) {
    c < '\U{20}' || '\U{7F}' <= c <= '\U{9F}'
  }

  predicate IsFinal(c: char) {
    '@' <= c <= '~'
  }

  /** The two classes by code: columns 4 to 7 without DEL, and C0, DEL and C1. */
  lemma CharacterClasses(c: char)
    ensures IsFinal(c) <==> 0x40 <= c as int < 0x7F
    ensures IsControl(c) <==> c as int < 0x20 || 0x7F <= c as int < 0xA0
  {
  }

  // ----------------------------------------------------------------- grammar

  datatype Token =
    | Text(c: char)                          // any character but ESC
    | Csi(body: string, final: char)         // ESC [ body final
    | OpenCsi(body: string)                  // ESC [ body, cut off by the end
    | Osc(body: string, terminator: string)  // ESC ] body, ended by BEL or ESC \
    | OpenOsc(body: string)                  // ESC ] body, cut off by the end
    | Escaped(c: char)                       // ESC c
    | LoneEscape                             // ESC at the end

  /** The prefix `body` of an operating-system string does not end inside. */
  predicate Unterminated(body: string) {
    && (forall i | 0 <= i < |body| :: body[i] != BEL)
    && (forall i | 1 <= i < |body| :: !(body[i - 1] == ESC && body[i] == '\\'))
  }

  predicate WellFormedToken(t: Token) {
    match t
    case Text(c) => c != ESC
    case Csi(body, final) => IsFinal(final) && forall i | 0 <= i < |body| :: !IsFinal(body[i])
    case OpenCsi(body) => forall i | 0 <= i < |body| :: !IsFinal(body[i])
    case Osc(body, terminator) =>
      && Unterminated(body)
      && (terminator == [BEL] || (terminator == "\\" && |body| > 0 && body[|body| - 1] == ESC))
    case OpenOsc(body) => Unterminated(body)
    case Escaped(c) => c != '[' && c != ']'
    case LoneEscape => true
  }

  /** A token that can only be the last one. */
  predicate CutOff(t: Token) {
    t.OpenCsi? || t.OpenOsc? || t.LoneEscape?
  }

  predicate WellFormed(tokens: seq<Token>) {
    forall i | 0 <= i < |tokens| ::
      WellFormedToken(tokens[i]) && (CutOff(tokens[i]) ==> i == |tokens| - 1)
  }

  function RenderToken(t: Token): string {
    match t
    case Text(c) => [c]
    case Csi(body, final) => [ESC, '['] + body + [final]
    case OpenCsi(body) => [ESC, '['] + body
    case Osc(body, terminator) => [ESC, ']'] + body + terminator
    case OpenOsc(body) => [ESC, ']'] + body
    case Escaped(c) => [ESC, c]
    case LoneEscape => [ESC]
  }

  function Render(tokens: seq<Token>): string {
    if tokens == [] then "" else RenderToken(tokens[0]) + Render(tokens[1..])
  }

  /** The text a reader keeps: the text tokens, controls shown as spaces. */
  function Visible(tokens: seq<Token>): string {
    if tokens == [] then ""
    else (if tokens[0].Text? then [Blanked(tokens[0].c)] else "") + Visible(tokens[1..])
  }

  function Blanked(c: char): char {
    if IsControl(c) then ' ' else c
  }

  // ----------------------------------------------------------------- scanner

  /** How much of `s` a control sequence takes: through its first final byte, or
      everything. */
  function CsiLength(s: string): (n: nat)
    ensures n <= |s|
  {
    if s == "" then 0 else if IsFinal(s[0]) then 1 else 1 + CsiLength(s[1..])
  }

  /** The same for an operating-system string; `escaped`: the character before
      `s` was ESC. */
  function OscLength(s: string, escaped: bool): (n: nat)
    ensures n <= |s|
  {
    if s == "" then 0
    else if s[0] == BEL || (escaped && s[0] == '\\') then 1
    else 1 + OscLength(s[1..], s[0] == ESC)
  }

  /** How many characters the scanner consumes at an ESC that starts `s`. */
  function SkipLength(s: string): (n: nat)
    requires s != "" && s[0] == ESC
    ensures 1 <= n <= |s|
  {
    if |s| == 1 then 1
    else if s[1] == '[' then 2 + CsiLength(s[2..])
    else if s[1] == ']' then 2 + OscLength(s[2..], false)
    else 2
  }

  function Stripped(s: string): string
    decreases |s|
  {
    if s == "" then ""
    else if s[0] != ESC then [s[0]] + Stripped(s[1..])
    else Stripped(s[SkipLength(s)..])
  }

  function Blank(s: string): (b: string)
    ensures |b| == |s|
    ensures forall i | 0 <= i < |s| :: b[i] == Blanked(s[i])
  {
    seq(|s|, i requires 0 <= i < |s| => Blanked(s[i]))
  }

  function Sanitized(text: string): string {
    Blank(Stripped(text))
  }

  lemma CsiLengthFrom(s: string, i: nat)
    requires i < |s|
    ensures CsiLength(s[i..]) == if IsFinal(s[i]) then 1 else 1 + CsiLength(s[i + 1..])
  {
    assert s[i..][1..] == s[i + 1..];
  }

  lemma OscLengthFrom(s: string, i: nat, escaped: bool)
    requires i < |s|
    ensures OscLength(s[i..], escaped)
         == if s[i] == BEL || (escaped && s[i] == '\\') then 1 else 1 + OscLength(s[i + 1..], s[i] == ESC)
  {
    assert s[i..][1..] == s[i + 1..];
  }

  /** Drain the cursor through a control sequence's final byte. */
  method SkipControlSequence(text: string, from: nat) returns (next: nat)
    requires from <= |text|
    ensures next == from + CsiLength(text[from..])
  {
    next := from;
    while next < |text|
      invariant from <= next <= |text|
      invariant from + CsiLength(text[from..]) == next + CsiLength(text[next..])
    {
      CsiLengthFrom(text, next);
      next := next + 1;
      if IsFinal(text[next - 1]) {
        return;
      }
    }
  }

  /** Drain the cursor through an operating-system string's terminator. */
  method SkipSystemString(text: string, from: nat) returns (next: nat)
    requires from <= |text|
    ensures next == from + OscLength(text[from..], false)
  {
    next := from;
    var escaped := false;
    while next < |text|
      invariant from <= next <= |text|
      invariant from + OscLength(text[from..], false) == next + OscLength(text[next..], escaped)
    {
      OscLengthFrom(text, next, escaped);
      next := next + 1;
      if text[next - 1] == BEL || (escaped && text[next - 1] == '\\') {
        return;
      }
      escaped := text[next - 1] == ESC;
    }
  }

  /** Skip the escape that starts at `start`. */
  method SkipEscape(text: string, start: nat) returns (next: nat)
    requires start < |text| && text[start] == ESC
    ensures next == start + SkipLength(text[start..])
  {
    if start + 1 == |text| {
      return start + 1;
    }
    assert text[start..][2..] == text[start + 2..];
    if text[start + 1] == '[' {
      next := SkipControlSequence(text, start + 2);
    } else if text[start + 1] == ']' {
      next := SkipSystemString(text, start + 2);
    } else {
      next := start + 2;
    }
  }

  /** One cursor over the characters, shared with the two inner scans. */
  method SanitizeTerminalText(text: string) returns (plain: string)
    ensures plain == Sanitized(text)
  {
    plain := "";
    var next := 0;
    while next < |text|
      invariant next <= |text|
      invariant plain + Stripped(text[next..]) == Stripped(text)
      decreases |text| - next
    {
      var character := text[next];
      StrippedFrom(text, next);
      if character != ESC {
        Appended(plain, character, Stripped(text[next + 1..]));
        plain := plain + [character];
        next := next + 1;
      } else {
        next := SkipEscape(text, next);
      }
    }
    assert plain + "" == plain;
    plain := Blank(plain);
  }

  lemma Appended(plain: string, c: char, rest: string)
    ensures plain + ([c] + rest) == plain + [c] + rest
  {
  }

  lemma StrippedFrom(text: string, next: nat)
    requires next < |text|
    ensures Stripped(text[next..]) ==
      if text[next] != ESC then [text[next]] + Stripped(text[next + 1..])
      else Stripped(text[next + SkipLength(text[next..])..])
  {
    var rest := text[next..];
    if rest[0] != ESC {
      assert rest[1..] == text[next + 1..];
    } else {
      assert rest[SkipLength(rest)..] == text[next + SkipLength(rest)..];
    }
  }

  // ------------------------------------------------ the scanner is the grammar

  lemma {:induction false} CsiLengthOfBody(body: string, rest: string)
    requires forall i | 0 <= i < |body| :: !IsFinal(body[i])
    ensures CsiLength(body + rest) == |body| + CsiLength(rest)
  {
    if body == "" {
      assert body + rest == rest;
    } else {
      assert (body + rest)[1..] == body[1..] + rest;
      CsiLengthOfBody(body[1..], rest);
    }
  }

  lemma {:induction false} OscLengthOfBody(body: string, rest: string, escaped: bool)
    requires Unterminated(body)
    requires body != "" && escaped ==> body[0] != '\\'
    ensures OscLength(body + rest, escaped)
         == |body| + OscLength(rest, if body == "" then escaped else body[|body| - 1] == ESC)
  {
    if body == "" {
      assert body + rest == rest;
    } else {
      assert (body + rest)[1..] == body[1..] + rest;
      OscLengthOfBody(body[1..], rest, body[0] == ESC);
    }
  }

  lemma SkipLengthOfCsi(body: string, rest: string)
    requires forall i | 0 <= i < |body| :: !IsFinal(body[i])
    ensures SkipLength([ESC, '['] + body + rest) == 2 + |body| + CsiLength(rest)
  {
    assert ([ESC, '['] + body + rest)[2..] == body + rest;
    CsiLengthOfBody(body, rest);
  }

  lemma SkipLengthOfOsc(body: string, rest: string)
    requires Unterminated(body)
    ensures SkipLength([ESC, ']'] + body + rest)
         == 2 + |body| + OscLength(rest, body != "" && body[|body| - 1] == ESC)
  {
    assert ([ESC, ']'] + body + rest)[2..] == body + rest;
    OscLengthOfBody(body, rest, false);
  }

  lemma SkipLengthOfClosedCsi(body: string, final: char, rest: string)
    requires WellFormedToken(Csi(body, final))
    ensures SkipLength(RenderToken(Csi(body, final)) + rest) == |body| + 3
  {
    SkipLengthOfCsi(body, [final] + rest);
    assert RenderToken(Csi(body, final)) + rest == [ESC, '['] + body + ([final] + rest);
    assert CsiLength([final] + rest) == 1;
  }

  lemma SkipLengthOfClosedOsc(body: string, terminator: string, rest: string)
    requires WellFormedToken(Osc(body, terminator))
    ensures SkipLength(RenderToken(Osc(body, terminator)) + rest) == |body| + 3
  {
    SkipLengthOfOsc(body, terminator + rest);
    assert RenderToken(Osc(body, terminator)) + rest == [ESC, ']'] + body + (terminator + rest);
    assert (terminator + rest)[0] == terminator[0];
  }

  lemma SkipLengthOfToken(t: Token, rest: string)
    requires WellFormedToken(t) && !t.Text?
    requires CutOff(t) ==> rest == ""
    ensures SkipLength(RenderToken(t) + rest) == |RenderToken(t)|
  {
    match t
    case Csi(body, final) =>
      SkipLengthOfClosedCsi(body, final, rest);
    case OpenCsi(body) =>
      SkipLengthOfCsi(body, "");
      assert RenderToken(t) + rest == [ESC, '['] + body + "";
    case Osc(body, terminator) =>
      SkipLengthOfClosedOsc(body, terminator, rest);
    case OpenOsc(body) =>
      SkipLengthOfOsc(body, "");
      assert RenderToken(t) + rest == [ESC, ']'] + body + "";
    case Escaped(c) =>
      assert (RenderToken(t) + rest)[1] == c;
    case LoneEscape =>
      assert RenderToken(t) + rest == [ESC];
  }

  lemma BlankSplits(a: string, b: string)
    ensures Blank(a + b) == Blank(a) + Blank(b)
  {
  }

  lemma TextIsKept(c: char, rest: string)
    requires c != ESC
    ensures Stripped([c] + rest) == [c] + Stripped(rest)
  {
    assert ([c] + rest)[1..] == rest;
  }

  lemma TextComesFirst(c: char, rest: string)
    requires c != ESC
    ensures Sanitized([c] + rest) == [Blanked(c)] + Sanitized(rest)
  {
    TextIsKept(c, rest);
    BlankSplits([c], Stripped(rest));
    assert Blank([c]) == [Blanked(c)];
  }

  lemma TokenIsDropped(t: Token, rest: string)
    requires WellFormedToken(t) && !t.Text?
    requires CutOff(t) ==> rest == ""
    ensures Stripped(RenderToken(t) + rest) == Stripped(rest)
  {
    SkipLengthOfToken(t, rest);
    assert (RenderToken(t) + rest)[|RenderToken(t)|..] == rest;
  }

  /** Sanitizing a rendered token list keeps exactly its visible text. */
  lemma {:induction false} SanitizingKeepsTheVisibleText(tokens: seq<Token>)
    requires WellFormed(tokens)
    ensures Sanitized(Render(tokens)) == Visible(tokens)
  {
    if tokens == [] {
    } else {
      var t, rest := tokens[0], Render(tokens[1..]);
      SanitizingKeepsTheVisibleText(tokens[1..]);
      if t.Text? {
        TextComesFirst(t.c, rest);
      } else {
        TokenIsDropped(t, rest);
      }
    }
  }

  // ------------------------------------------------- every text has one parse

  lemma {:induction false} CsiParse(s: string) returns (t: Token)
    ensures WellFormedToken(t) && (t.Csi? || (t.OpenCsi? && CsiLength(s) == |s|))
    ensures RenderToken(t) == [ESC, '['] + s[..CsiLength(s)]
  {
    if s == "" {
      t := OpenCsi("");
    } else if IsFinal(s[0]) {
      t := Csi("", s[0]);
    } else {
      var tail := CsiParse(s[1..]);
      assert s[..CsiLength(s)] == [s[0]] + s[1..][..CsiLength(s[1..])];
      t := if tail.Csi? then Csi([s[0]] + tail.body, tail.final) else OpenCsi([s[0]] + tail.body);
      assert RenderToken(tail)[2..] == s[1..][..CsiLength(s[1..])];
    }
  }

  lemma {:induction false} OscBody(s: string, before: string)
    returns (body: string, terminator: string)
    requires Unterminated(before)
    ensures var n := OscLength(s, before != "" && before[|before| - 1] == ESC);
            && body + terminator == before + s[..n]
            && Unterminated(body)
            && (terminator == "" ==> n == |s|)
            && (terminator == "" || terminator == [BEL]
                || (terminator == "\\" && body != "" && body[|body| - 1] == ESC))
    decreases |s|
  {
    var escaped := before != "" && before[|before| - 1] == ESC;
    if s == "" {
      body, terminator := before, "";
    } else if s[0] == BEL || (escaped && s[0] == '\\') {
      body, terminator := before, [s[0]];
    } else {
      body, terminator := OscBody(s[1..], before + [s[0]]);
      assert before + [s[0]] + s[1..][..OscLength(s[1..], s[0] == ESC)] == before + s[..OscLength(s, escaped)];
    }
  }

  lemma OscParse(s: string) returns (t: Token)
    ensures WellFormedToken(t) && (t.Osc? || (t.OpenOsc? && OscLength(s, false) == |s|))
    ensures RenderToken(t) == [ESC, ']'] + s[..OscLength(s, false)]
  {
    var body, terminator := OscBody(s, "");
    t := if terminator == "" then OpenOsc(body) else Osc(body, terminator);
    assert body + terminator == s[..OscLength(s, false)];
    assert body + "" == body;
  }

  lemma AfterTwo(s: string, n: nat)
    requires 2 + n <= |s|
    ensures s[..2 + n] == [s[0], s[1]] + s[2..][..n]
  {
  }

  lemma ParseEscape(s: string) returns (t: Token)
    requires s != "" && s[0] == ESC
    ensures WellFormedToken(t) && !t.Text?
    ensures RenderToken(t) == s[..SkipLength(s)]
    ensures CutOff(t) ==> SkipLength(s) == |s|
  {
    if |s| == 1 {
      t := LoneEscape;
    } else if s[1] == '[' {
      t := CsiParse(s[2..]);
      AfterTwo(s, CsiLength(s[2..]));
    } else if s[1] == ']' {
      t := OscParse(s[2..]);
      AfterTwo(s, OscLength(s[2..], false));
    } else {
      t := Escaped(s[1]);
      AfterTwo(s, 0);
    }
  }

  lemma RenderedHead(t: Token, rest: seq<Token>)
    ensures Render([t] + rest) == RenderToken(t) + Render(rest)
    ensures Visible([t] + rest) == (if t.Text? then [Blanked(t.c)] else "") + Visible(rest)
    ensures WellFormedToken(t) && WellFormed(rest) && (CutOff(t) ==> rest == []) ==> WellFormed([t] + rest)
  {
    assert ([t] + rest)[1..] == rest;
  }

  lemma RenderingIsNotEmpty(tokens: seq<Token>)
    requires tokens != []
    ensures Render(tokens) != ""
  {
    assert |RenderToken(tokens[0])| >= 1;
  }

  lemma {:induction false} EveryTextParses(s: string) returns (tokens: seq<Token>)
    ensures WellFormed(tokens) && Render(tokens) == s
    decreases |s|
  {
    if s == "" {
      tokens := [];
    } else {
      var t, n;
      if s[0] != ESC {
        t, n := Text(s[0]), 1;
      } else {
        t := ParseEscape(s);
        n := SkipLength(s);
      }
      var rest := EveryTextParses(s[n..]);
      ParsedOn(t, rest);
      assert s == s[..n] + s[n..];
      tokens := [t] + rest;
    }
  }

  lemma {:induction false} ParsedOn(t: Token, rest: seq<Token>)
    requires WellFormedToken(t) && WellFormed(rest) && (CutOff(t) ==> Render(rest) == "")
    ensures WellFormed([t] + rest) && Render([t] + rest) == RenderToken(t) + Render(rest)
  {
    if rest != [] {
      RenderingIsNotEmpty(rest);
    }
    RenderedHead(t, rest);
  }

  /** Two tokens that start the same text are the same token. */
  lemma TokenIsDetermined(t: Token, u: Token, rest: string, other: string)
    requires WellFormedToken(t) && WellFormedToken(u)
    requires CutOff(t) ==> rest == ""
    requires CutOff(u) ==> other == ""
    requires RenderToken(t) + rest == RenderToken(u) + other
    ensures t == u && rest == other
  {
    var s := RenderToken(t) + rest;
    assert s[0] == RenderToken(t)[0] == RenderToken(u)[0];
    if !t.Text? {
      SkipLengthOfToken(t, rest);
      SkipLengthOfToken(u, other);
      assert s[..SkipLength(s)] == RenderToken(t) == RenderToken(u);
      SameRendering(t, u);
    }
    assert rest == s[|RenderToken(t)|..] == other;
  }

  /** What a sequence holds after its two introducing characters. */
  function Contents(t: Token): string
    requires t.Csi? || t.OpenCsi? || t.Osc? || t.OpenOsc?
  {
    match t
    case Csi(body, final) => body + [final]
    case OpenCsi(body) => body
    case Osc(body, terminator) => body + terminator
    case OpenOsc(body) => body
  }

  lemma ContentsFollow(t: Token)
    requires t.Csi? || t.OpenCsi? || t.Osc? || t.OpenOsc?
    ensures RenderToken(t)[2..] == Contents(t)
  {
    var s := RenderToken(t);
    match t
    case Csi(body, final) => assert s == [ESC, '['] + (body + [final]);
    case OpenCsi(body) => assert s == [ESC, '['] + body;
    case Osc(body, terminator) => assert s == [ESC, ']'] + (body + terminator);
    case OpenOsc(body) => assert s == [ESC, ']'] + body;
  }

  lemma ClosedCsiHasAFinal(body: string, final: char)
    ensures final in body + [final]
  {
    assert (body + [final])[|body|] == final;
  }

  lemma ClosedOscIsTerminated(body: string, terminator: string)
    requires WellFormedToken(Osc(body, terminator))
    ensures !Unterminated(body + terminator)
  {
    var s := body + terminator;
    assert s[|body|] == terminator[0];
    if terminator != [BEL] {
      assert s[|body| - 1] == body[|body| - 1];
    }
  }

  /** A closed sequence's contents show that it is closed. */
  lemma ContentsOfToken(t: Token)
    requires WellFormedToken(t) && (t.Csi? || t.OpenCsi? || t.Osc? || t.OpenOsc?)
    ensures RenderToken(t)[2..] == Contents(t)
    ensures t.Csi? ==> exists c :: c in Contents(t) && IsFinal(c)
    ensures t.OpenCsi? ==> forall c :: c in Contents(t) ==> !IsFinal(c)
    ensures t.Osc? ==> !Unterminated(Contents(t))
    ensures t.OpenOsc? ==> Unterminated(Contents(t))
  {
    ContentsFollow(t);
    match t
    case Csi(body, final) => ClosedCsiHasAFinal(body, final);
    case Osc(body, terminator) => ClosedOscIsTerminated(body, terminator);
    case _ =>
  }

  lemma SameClosedContents(t: Token, u: Token)
    requires WellFormedToken(t) && WellFormedToken(u)
    requires (t.Csi? && u.Csi?) || (t.Osc? && u.Osc?)
    requires Contents(t) == Contents(u)
    ensures t == u
  {
    var s, n := Contents(t), |Contents(t)| - 1;
    assert s[..n] == t.body && s[n..] == [s[n]];
    assert Contents(u)[..n] == u.body && Contents(u)[n..] == [s[n]];
  }

  lemma SameRendering(t: Token, u: Token)
    requires WellFormedToken(t) && WellFormedToken(u) && !t.Text? && !u.Text?
    requires RenderToken(t) == RenderToken(u)
    ensures t == u
  {
    if |RenderToken(t)| >= 2 {
      assert RenderToken(t)[1] == RenderToken(u)[1];
      if !t.Escaped? {
        ContentsOfToken(t);
        ContentsOfToken(u);
        if t.Csi? || t.Osc? {
          SameClosedContents(t, u);
        }
      }
    }
  }

  lemma HeadsAgree(tokens: seq<Token>, others: seq<Token>)
    requires WellFormed(tokens) && WellFormed(others) && tokens != [] && others != []
    requires Render(tokens) == Render(others)
    ensures tokens[0] == others[0] && Render(tokens[1..]) == Render(others[1..])
  {
    TokenIsDetermined(tokens[0], others[0], Render(tokens[1..]), Render(others[1..]));
  }

  lemma {:induction false} ParseIsUnique(tokens: seq<Token>, others: seq<Token>)
    requires WellFormed(tokens) && WellFormed(others)
    requires Render(tokens) == Render(others)
    ensures tokens == others
    decreases |tokens|
  {
    if tokens != [] {
      RenderingIsNotEmpty(tokens);
    }
    if others != [] {
      RenderingIsNotEmpty(others);
    }
    if tokens != [] {
      HeadsAgree(tokens, others);
      ParseIsUnique(tokens[1..], others[1..]);
      assert tokens == [tokens[0]] + tokens[1..] && others == [others[0]] + others[1..];
    }
  }

  // -------------------------------------------------------------- consequences

  lemma {:induction false} StrippedIsNoLonger(s: string)
    ensures |Stripped(s)| <= |s|
    decreases |s|
  {
    if s == "" {
    } else if s[0] != ESC {
      StrippedIsNoLonger(s[1..]);
    } else {
      StrippedIsNoLonger(s[SkipLength(s)..]);
    }
  }

  lemma SanitizedHasNoControls(text: string)
    ensures |Sanitized(text)| <= |text|
    ensures forall c | c in Sanitized(text) :: !IsControl(c)
  {
    StrippedIsNoLonger(text);
  }

  lemma {:induction false} ControlFreeTextIsUnchanged(text: string)
    requires forall i | 0 <= i < |text| :: !IsControl(text[i])
    ensures Sanitized(text) == text
  {
    if text == "" {
    } else {
      ControlFreeTextIsUnchanged(text[1..]);
      assert text == [text[0]] + text[1..];
      TextComesFirst(text[0], text[1..]);
    }
  }

  lemma SanitizingTwiceIsOnce(text: string)
    ensures Sanitized(Sanitized(text)) == Sanitized(text)
  {
    SanitizedHasNoControls(text);
    ControlFreeTextIsUnchanged(Sanitized(text));
  }

  /** No escape is left open at the end of `text`. */
  ghost predicate Ground(text: string) {
    exists tokens: seq<Token> ::
      WellFormed(tokens) && Render(tokens) == text && forall i | 0 <= i < |tokens| :: !CutOff(tokens[i])
  }

  lemma TextSplits(c: char, rest: string, more: string)
    requires c != ESC && Stripped(rest + more) == Stripped(rest) + Stripped(more)
    ensures Stripped([c] + (rest + more)) == Stripped([c] + rest) + Stripped(more)
  {
    TextIsKept(c, rest);
    TextIsKept(c, rest + more);
    assert [c] + (Stripped(rest) + Stripped(more)) == [c] + Stripped(rest) + Stripped(more);
  }

  lemma TokenSplits(t: Token, rest: string, more: string)
    requires WellFormedToken(t) && !CutOff(t) && !t.Text?
    requires Stripped(rest + more) == Stripped(rest) + Stripped(more)
    ensures Stripped(RenderToken(t) + (rest + more)) == Stripped(RenderToken(t) + rest) + Stripped(more)
  {
    TokenIsDropped(t, rest);
    TokenIsDropped(t, rest + more);
  }

  lemma Regrouped(a: string, b: string, c: string)
    ensures a + b + c == a + (b + c)
  {
  }

  lemma HeadSplits(t: Token, rest: string, more: string)
    requires WellFormedToken(t) && !CutOff(t)
    requires Stripped(rest + more) == Stripped(rest) + Stripped(more)
    ensures Stripped(RenderToken(t) + rest + more) == Stripped(RenderToken(t) + rest) + Stripped(more)
  {
    Regrouped(RenderToken(t), rest, more);
    if t.Text? {
      assert RenderToken(t) == [t.c];
      TextSplits(t.c, rest, more);
    } else {
      TokenSplits(t, rest, more);
    }
  }

  lemma {:induction false} ClosedTokensSplit(tokens: seq<Token>, more: string)
    requires WellFormed(tokens)
    requires forall i | 0 <= i < |tokens| :: !CutOff(tokens[i])
    ensures Stripped(Render(tokens) + more) == Stripped(Render(tokens)) + Stripped(more)
  {
    if tokens == [] {
      assert "" + more == more;
    } else {
      ClosedTokensSplit(tokens[1..], more);
      HeadSplits(tokens[0], Render(tokens[1..]), more);
    }
  }

  lemma SanitizingSplitsAtGround(text: string, more: string)
    requires Ground(text)
    ensures Sanitized(text + more) == Sanitized(text) + Sanitized(more)
  {
    var tokens: seq<Token> :| WellFormed(tokens) && Render(tokens) == text
      && forall i | 0 <= i < |tokens| :: !CutOff(tokens[i]);
    ClosedTokensSplit(tokens, more);
    BlankSplits(Stripped(text), Stripped(more));
  }

  // --------------------------------------------------------------- row bounds

  function Bounded(text: string): string {
    if |text| <= MAX_LOG_TEXT_CHARS then text else text[..MAX_LOG_TEXT_CHARS] + ['…']
  }

  /** `bounded_log_text`: take a prefix, and mark it when anything was left. */
  method BoundedLogText(text: string) returns (bounded: string)
    ensures bounded == Bounded(text)
  {
    bounded := "";
    var next := 0;
    while next < |text| && next < MAX_LOG_TEXT_CHARS
      invariant next <= |text| && next <= MAX_LOG_TEXT_CHARS && bounded == text[..next]
    {
      bounded := bounded + [text[next]];
      next := next + 1;
    }
    if next < |text| {
      bounded := bounded + ['…'];
    }
  }

  lemma BoundingIsStable(text: string)
    ensures |Bounded(text)| <= MAX_LOG_TEXT_CHARS + 1
    ensures Bounded(Bounded(text)) == Bounded(text)
    ensures Bounded(text) == text <==>
      || |text| <= MAX_LOG_TEXT_CHARS
      || (|text| == MAX_LOG_TEXT_CHARS + 1 && text[MAX_LOG_TEXT_CHARS] == '…')
  {
    if |text| == MAX_LOG_TEXT_CHARS + 1 {
      assert text == text[..MAX_LOG_TEXT_CHARS] + [text[MAX_LOG_TEXT_CHARS]];
    }
  }
}
