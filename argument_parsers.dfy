/**
 * The textual argument parsers: each turns one token into a typed value or
 * fails with `None`. Integer and boolean parsing follow Kotlin's
 * `toIntOrNull` and a lower-cased `when`; the three mention parsers match a
 * fixed pattern, read the digit run as a 64-bit id and ask the platform for
 * the entity with that id.
 */
module ArgumentParsers {
  import opened Wrappers
  import opened Platform
  import opened PublicCommandDataTypes

  /** Ranges of Kotlin's `Int` and `Long`. */
  const IntMinValue: int := -0x8000_0000
  const IntMaxValue: int := 0x7fff_ffff
  const LongMaxValue: int := 0x7fff_ffff_ffff_ffff

  /** A parsed argument, tagged with the Kotlin type it has. */
  datatype Value =
    | IntValue(i: int)
    | DoubleValue(d: real)
    | UserValue(user: User)
    | RoleValue(role: Role)
    | TextChannelValue(channel: TextChannel)
    | BooleanValue(b: bool)
    | StringValue(s: string)
  {
    function Type(): ArgType {
      match this
      case IntValue(_) => IntType
      case DoubleValue(_) => DoubleType
      case UserValue(_) => UserType
      case RoleValue(_) => RoleType
      case TextChannelValue(_) => TextChannelType
      case BooleanValue(_) => BooleanType
      case StringValue(_) => StringType
    }
  }

  // ---------------------------------------------------------------------------
  // Decimal digits

  predicate IsDigit(c: char) {
    '0' <= c <= '9'
  }

  predicate AllDigits(s: string) {
    forall i :: 0 <= i < |s| ==> IsDigit(s[i])
  }

  /** What `\d+` matches: one or more ASCII decimal digits. */
  predicate IsDigitRun(s: string) {
    |s| > 0 && AllDigits(s)
  }

  /** The number a run of decimal digits denotes, most significant digit first. */
  function DigitsValue(s: string): nat
    requires AllDigits(s)
  {
    if s == [] then 0 else 10 * DigitsValue(s[..|s| - 1]) + (s[|s| - 1] as int - '0' as int)
  }

  function DigitChar(d: nat): (c: char)
    requires d < 10
    ensures IsDigit(c) && c as int - '0' as int == d
  {
    ('0' as int + d) as char
  }

  /** Decimal text of a natural number, without leading zeros (Kotlin's `toString`). */
  function NatToString(n: nat): (s: string)
    ensures IsDigitRun(s)
    ensures n > 0 ==> s[0] != '0'
  {
    if n < 10 then [DigitChar(n)] else NatToString(n / 10) + [DigitChar(n % 10)]
  }

  /** Kotlin's `Int.toString()` and `Long.toString()`. */
  function IntToString(n: int): string {
    if n < 0 then "-" + NatToString(-n) else NatToString(n)
  }

  lemma {:induction false} DigitsValueOfNatToString(n: nat)
    ensures DigitsValue(NatToString(n)) == n
  {
    if n >= 10 {
      DigitsValueOfNatToString(n / 10);
      var s := NatToString(n);
      assert s[..|s| - 1] == NatToString(n / 10);
    }
  }

  // ---------------------------------------------------------------------------
  // IntParser

  /**
   * Kotlin's `String.toIntOrNull()`: an optional `-` or `+`, then one or more
   * decimal digits, and the value must fit in an `Int`.
   */
  function ToIntOrNull(s: string): (r: Option<int>)
    ensures r.Some? ==> IntMinValue <= r.value <= IntMaxValue
  {
    if s == [] then None
    else
      var digits := if s[0] == '-' || s[0] == '+' then s[1..] else s;
      if !IsDigitRun(digits) then None
      else
        var v: int := if s[0] == '-' then -(DigitsValue(digits) as int) else DigitsValue(digits);
        if IntMinValue <= v <= IntMaxValue then Some(v) else None
  }

  /** Printing an integer and parsing it back gives it back exactly when it is an `Int`. */
  lemma IntRoundTrip(n: int)
    ensures ToIntOrNull(IntToString(n)) == if IntMinValue <= n <= IntMaxValue then Some(n) else None
  {
    var s := IntToString(n);
    if n < 0 {
      DigitsValueOfNatToString(-n);
      assert s[1..] == NatToString(-n);
    } else {
      DigitsValueOfNatToString(n);
    }
  }

  /** A sign (or none) followed by a digit run always parses to its value when in range. */
  lemma SignedDigitsParse(sign: string, ds: string)
    requires sign == "" || sign == "-" || sign == "+"
    requires IsDigitRun(ds)
    ensures var v: int := if sign == "-" then -(DigitsValue(ds) as int) else DigitsValue(ds);
            ToIntOrNull(sign + ds) == if IntMinValue <= v <= IntMaxValue then Some(v) else None
  {
    var s := sign + ds;
    if sign == "" {
      assert s == ds;
    } else {
      assert s[0] == sign[0] && s[1..] == ds;
    }
  }

  /** Any character that is not a digit, other than a leading sign before more text, makes parsing fail. */
  lemma NonDigitRejected(s: string, i: nat)
    requires i < |s| && !IsDigit(s[i])
    requires !(i == 0 && |s| > 1 && (s[0] == '-' || s[0] == '+'))
    ensures ToIntOrNull(s) == None
  {
    if s[0] == '-' || s[0] == '+' {
      if i > 0 {
        assert s[1..][i - 1] == s[i];
      }
    }
  }

  /** The value of a digit run after an optional sign. */
  function SignedValue(sign: string, ds: string): int
    requires AllDigits(ds)
  {
    if sign == "-" then -(DigitsValue(ds) as int) else DigitsValue(ds)
  }

  /** IntParser accepts exactly an optional sign, then digits, whose value fits in an `Int`; it then yields that value. */
  lemma IntParserAccepts(s: string)
    ensures ToIntOrNull(s).Some? <==>
      exists sign: string, ds: string :: (sign == "" || sign == "-" || sign == "+") && IsDigitRun(ds) && s == sign + ds
        && IntMinValue <= SignedValue(sign, ds) <= IntMaxValue
    ensures forall sign: string, ds: string ::
      ((sign == "" || sign == "-" || sign == "+") && IsDigitRun(ds) && s == sign + ds
        && IntMinValue <= SignedValue(sign, ds) <= IntMaxValue) ==> ToIntOrNull(s) == Some(SignedValue(sign, ds))
  {
    forall sign: string, ds: string | (sign == "" || sign == "-" || sign == "+") && IsDigitRun(ds) && s == sign + ds
      ensures ToIntOrNull(s) == if IntMinValue <= SignedValue(sign, ds) <= IntMaxValue then Some(SignedValue(sign, ds)) else None
    {
      SignedDigitsParse(sign, ds);
    }
    if ToIntOrNull(s).Some? {
      var k := if s[0] == '-' || s[0] == '+' then 1 else 0;
      var sign, ds := s[..k], s[k..];
      assert s == sign + ds;
      assert sign == "" || sign == "-" || sign == "+";
      assert IntMinValue <= SignedValue(sign, ds) <= IntMaxValue;
    }
  }

  // ---------------------------------------------------------------------------
  // BooleanParser

  /** `Char.toLowerCase()` on the letters that can matter here (ASCII). */
  function LowerChar(c: char): char {
    if 'A' <= c <= 'Z' then (c as int - 'A' as int + 'a' as int) as char else c
  }

  function ToLowerCase(s: string): (r: string)
    ensures |r| == |s| && forall i :: 0 <= i < |s| ==> r[i] == LowerChar(s[i])
  {
    if s == [] then [] else [LowerChar(s[0])] + ToLowerCase(s[1..])
  }

  /** BooleanParser: `"true"`/`"1"` and `"false"`/`"0"` after lower-casing, anything else fails. */
  function ToBooleanOrNull(arg: string): (r: Option<bool>)
    ensures r == Some(true) <==> ToLowerCase(arg) == "true" || arg == "1"
    ensures r == Some(false) <==> ToLowerCase(arg) == "false" || arg == "0"
  {
    var lower := ToLowerCase(arg);
    if lower == "true" || lower == "1" then Some(true)
    else if lower == "false" || lower == "0" then Some(false)
    else None
  }

  /** Upper-case letters and lower-case letters are read alike. */
  lemma BooleanIgnoresCase(a: string, b: string)
    requires ToLowerCase(a) == ToLowerCase(b)
    ensures ToBooleanOrNull(a) == ToBooleanOrNull(b)
  {
  }

  function BooleanToString(b: bool): string {
    if b then "true" else "false"
  }

  /** What Kotlin prints for a boolean, in any letter case, parses back to it. */
  lemma BooleanRoundTrip(b: bool, text: string)
    requires ToLowerCase(text) == BooleanToString(b)
    ensures ToBooleanOrNull(text) == Some(b)
  {
  }

  // ---------------------------------------------------------------------------
  // Mention patterns

  /** The digit run of `arg` when the whole of `arg` is `open`, digits, `>`. */
  function MentionDigits(arg: string, open: string): (r: Option<string>)
    ensures r.Some? ==> IsDigitRun(r.value) && arg == open + r.value + ">"
  {
    if |arg| >= |open| + 2 && arg[..|open|] == open && arg[|arg| - 1] == '>' && IsDigitRun(arg[|open|..|arg| - 1])
    then
      var ds := arg[|open|..|arg| - 1];
      assert arg == arg[..|open|] + ds + [arg[|arg| - 1]];
      Some(ds)
    else None
  }

  lemma MentionDigitsOf(open: string, ds: string)
    requires IsDigitRun(ds)
    ensures MentionDigits(open + ds + ">", open) == Some(ds)
  {
    var arg := open + ds + ">";
    assert arg[..|open|] == open;
    assert arg[|open|..|arg| - 1] == ds;
  }

  /** `<@!?(\d+)>`, matched against the entire text. */
  function UserMentionDigits(arg: string): (r: Option<string>)
    ensures r.Some? ==> IsDigitRun(r.value) && (arg == "<@" + r.value + ">" || arg == "<@!" + r.value + ">")
  {
    match MentionDigits(arg, "<@!")
    case Some(ds) => Some(ds)
    case None => MentionDigits(arg, "<@")
  }

  /** `<@&(\d+)>`, matched against the entire text. */
  function RoleMentionDigits(arg: string): Option<string> {
    MentionDigits(arg, "<@&")
  }

  /** `<@#(\d+)>`, matched against the entire text. */
  function TextChannelMentionDigits(arg: string): Option<string> {
    MentionDigits(arg, "<@#")
  }

  /** `?.toLongOrNull()` on the captured digit run: the id, unless it overflows a `Long`. */
  function MentionedId(digits: Option<string>): (r: Option<int>)
    requires digits.Some? ==> IsDigitRun(digits.value)
    ensures r.Some? ==> 0 <= r.value <= LongMaxValue
  {
    match digits
    case None => None
    case Some(ds) => if DigitsValue(ds) <= LongMaxValue then Some(DigitsValue(ds)) else None
  }

  function ParseUser(jda: Jda, arg: string): (r: Option<User>)
    ensures UserMentionDigits(arg).None? ==> r.None?
  {
    match MentionedId(UserMentionDigits(arg))
    case None => None
    case Some(id) => jda.getUserById(id)
  }

  function ParseRole(jda: Jda, arg: string): (r: Option<Role>)
    ensures RoleMentionDigits(arg).None? ==> r.None?
  {
    match MentionedId(RoleMentionDigits(arg))
    case None => None
    case Some(id) => jda.getRoleById(id)
  }

  function ParseTextChannel(jda: Jda, arg: string): (r: Option<TextChannel>)
    ensures TextChannelMentionDigits(arg).None? ==> r.None?
  {
    match MentionedId(TextChannelMentionDigits(arg))
    case None => None
    case Some(id) => jda.getTextChannelById(id)
  }

  /** `<@id>` and `<@!id>` both look the user up by that id. */
  lemma UserMentionLooksUp(jda: Jda, ds: string, exclamation: bool)
    requires IsDigitRun(ds) && DigitsValue(ds) <= LongMaxValue
    ensures ParseUser(jda, (if exclamation then "<@!" else "<@") + ds + ">") == jda.getUserById(DigitsValue(ds))
  {
    if exclamation {
      MentionDigitsOf("<@!", ds);
    } else {
      var arg := "<@" + ds + ">";
      MentionDigitsOf("<@", ds);
      assert arg[2] == ds[0];
      assert arg[..3] != "<@!" by {
        assert arg[..3][2] == ds[0];
      }
    }
  }

  lemma RoleMentionLooksUp(jda: Jda, ds: string)
    requires IsDigitRun(ds) && DigitsValue(ds) <= LongMaxValue
    ensures ParseRole(jda, "<@&" + ds + ">") == jda.getRoleById(DigitsValue(ds))
  {
    MentionDigitsOf("<@&", ds);
  }

  lemma TextChannelMentionLooksUp(jda: Jda, ds: string)
    requires IsDigitRun(ds) && DigitsValue(ds) <= LongMaxValue
    ensures ParseTextChannel(jda, "<@#" + ds + ">") == jda.getTextChannelById(DigitsValue(ds))
  {
    MentionDigitsOf("<@#", ds);
  }

  /** A digit run too large for a `Long` fails whatever the platform holds: no lookup happens. */
  lemma OverflowingMentionFails(jda: Jda, ds: string, exclamation: bool)
    requires IsDigitRun(ds) && DigitsValue(ds) > LongMaxValue
    ensures ParseUser(jda, (if exclamation then "<@!" else "<@") + ds + ">") == None
    ensures ParseRole(jda, "<@&" + ds + ">") == None
    ensures ParseTextChannel(jda, "<@#" + ds + ">") == None
  {
    MentionDigitsOf("<@&", ds);
    MentionDigitsOf("<@#", ds);
    var arg := (if exclamation then "<@!" else "<@") + ds + ">";
    var found := UserMentionDigits(arg);
    if found.Some? {
      assert found.value == ds by {
        if arg == "<@" + found.value + ">" {
          assert ("<@" + found.value + ">")[2..|arg| - 1] == found.value;
        } else {
          assert ("<@!" + found.value + ">")[3..|arg| - 1] == found.value;
        }
        if exclamation {
          assert arg[3..|arg| - 1] == ds;
          assert arg[2] == '!';
          assert ("<@" + found.value + ">")[2] == found.value[0];
        } else {
          assert arg[2..|arg| - 1] == ds;
          assert arg[2] == ds[0];
          assert ("<@!" + found.value + ">")[2] == '!';
        }
      }
    }
  }

  /** No text is accepted by two of the three mention patterns. */
  lemma MentionPatternsExclusive(arg: string)
    ensures !(UserMentionDigits(arg).Some? && RoleMentionDigits(arg).Some?)
    ensures !(UserMentionDigits(arg).Some? && TextChannelMentionDigits(arg).Some?)
    ensures !(RoleMentionDigits(arg).Some? && TextChannelMentionDigits(arg).Some?)
  {
    var user, role, channel := UserMentionDigits(arg), RoleMentionDigits(arg), TextChannelMentionDigits(arg);
    if user.Some? {
      if arg == "<@" + user.value + ">" {
        assert arg[2] == user.value[0];
      } else {
        assert arg[2] == '!';
      }
      assert arg[2] == '!' || IsDigit(arg[2]);
    }
    if role.Some? {
      assert arg[2] == '&';
    }
    if channel.Some? {
      assert arg[2] == '#';
    }
  }

  // ---------------------------------------------------------------------------
  // The parsers

  /**
   * The built-in parsers. The mention parsers hold the platform client;
   * the double parser holds the string-to-floating-point conversion, which
   * is not modelled and so is supplied from outside.
   */
  datatype ArgumentParser =
    | IntParser
    | DoubleParser(toDoubleOrNull: string -> Option<real>)
    | UserParser(jda: Jda)
    | RoleParser(jda: Jda)
    | TextChannelParser(jda: Jda)
    | BooleanParser
    | StringParser
  {
    function Type(): ArgType {
      match this
      case IntParser => IntType
      case DoubleParser(_) => DoubleType
      case UserParser(_) => UserType
      case RoleParser(_) => RoleType
      case TextChannelParser(_) => TextChannelType
      case BooleanParser => BooleanType
      case StringParser => StringType
    }

    /** `parseArgument`: a value of this parser's own type, or `None`; the string parser never fails. */
    function ParseArgument(arg: string): (r: Option<Value>)
      ensures r.Some? ==> r.value.Type() == Type()
      ensures StringParser? ==> r == Some(StringValue(arg))
    {
      match this
      case IntParser =>
        (match ToIntOrNull(arg) case Some(i) => Some(IntValue(i)) case None => None)
      case DoubleParser(toDouble) =>
        (match toDouble(arg) case Some(d) => Some(DoubleValue(d)) case None => None)
      case UserParser(jda) =>
        (match ParseUser(jda, arg) case Some(u) => Some(UserValue(u)) case None => None)
      case RoleParser(jda) =>
        (match ParseRole(jda, arg) case Some(r) => Some(RoleValue(r)) case None => None)
      case TextChannelParser(jda) =>
        (match ParseTextChannel(jda, arg) case Some(c) => Some(TextChannelValue(c)) case None => None)
      case BooleanParser =>
        (match ToBooleanOrNull(arg) case Some(b) => Some(BooleanValue(b)) case None => None)
      case StringParser => Some(StringValue(arg))
    }
  }

  /** The boolean cases from the parser tests that read as true. */
  lemma BooleanParserTrueExamples()
    ensures BooleanParser.ParseArgument("true") == Some(BooleanValue(true))
    ensures BooleanParser.ParseArgument("TRUE") == Some(BooleanValue(true))
    ensures BooleanParser.ParseArgument("1") == Some(BooleanValue(true))
  {
    assert ToLowerCase("true") == "true";
    assert ToLowerCase("TRUE") == "true";
  }

  /** The boolean cases from the parser tests that read as false or fail. */
  lemma BooleanParserOtherExamples()
    ensures BooleanParser.ParseArgument("false") == Some(BooleanValue(false))
    ensures BooleanParser.ParseArgument("0") == Some(BooleanValue(false))
    ensures BooleanParser.ParseArgument("foo") == None
  {
    assert ToLowerCase("false") == "false";
    assert ToLowerCase("foo") == "foo";
  }

  lemma DigitsValue123()
    ensures AllDigits("123") && DigitsValue("123") == 123
  {
    var ds := "123";
    assert ds[..2] == "12" && "12"[..1] == "1" && "1"[..0] == "";
  }

  /** The user mention cases from the parser tests: with or without `!`, each looks up id 123. */
  lemma UserParserExamples(jda: Jda)
    ensures ParseUser(jda, "<@!123>") == jda.getUserById(123)
    ensures ParseUser(jda, "<@123>") == jda.getUserById(123)
  {
    var ds := "123";
    DigitsValue123();
    UserMentionLooksUp(jda, ds, true);
    UserMentionLooksUp(jda, ds, false);
    assert "<@!" + ds + ">" == "<@!123>";
    assert "<@" + ds + ">" == "<@123>";
  }

  /** The role and text channel mention cases from the parser tests: each looks up id 123. */
  lemma RoleAndTextChannelParserExamples(jda: Jda)
    ensures ParseRole(jda, "<@&123>") == jda.getRoleById(123)
    ensures ParseTextChannel(jda, "<@#123>") == jda.getTextChannelById(123)
  {
    var ds := "123";
    DigitsValue123();
    RoleMentionLooksUp(jda, ds);
    TextChannelMentionLooksUp(jda, ds);
    assert "<@&" + ds + ">" == "<@&123>";
    assert "<@#" + ds + ">" == "<@#123>";
  }
}
