/** The settings of bot/config.py, read from environment values that are passed in
    as parameters (`None` for an unset variable). */
module Config {
  import opened Models
  import opened Text

  /** `Config._get_guild_id()`: the GUILD_ID value as a number when, once stripped,
      it is a non-empty string of decimal digits. */
  function GuildId(env: Option<string>): (r: Option<nat>)
    ensures r.Some? <==> env.Some? && IsDecimal(Strip(env.value))
    ensures r.Some? ==> NatToString(r.value) == TrimLeadingZeros(Strip(env.value))
  {
    if env.Some? && env.value != "" && Strip(env.value) != "" && IsDecimal(Strip(env.value)) then
      var digits := Strip(env.value);
      NatToStringOfParse(digits);
      Some(ParseNat(digits))
    else
      None
  }

  /** Drops the leading zeros of a numeral, keeping one digit. */
  function TrimLeadingZeros(s: string): (r: string)
    requires IsDecimal(s)
    ensures IsDecimal(r)
    ensures r[0] == '0' ==> r == "0"
    ensures ParseNat(r) == ParseNat(s)
  {
    if |s| > 1 && s[0] == '0' then
      var r := TrimLeadingZeros(s[1..]);
      ParseNatDropsLeadingZero(s);
      r
    else if |s| > 1 || s[0] != '0' then
      s
    else
      "0"
  }

  lemma {:induction false} ParseNatDropsLeadingZero(s: string)
    requires IsDecimal(s) && |s| > 1 && s[0] == '0'
    ensures ParseNat(s) == ParseNat(s[1..])
    decreases |s|
  {
    var init := s[..|s| - 1];
    assert s[1..][..|s[1..]| - 1] == init[1..];
    if |init| > 1 {
      ParseNatDropsLeadingZero(init);
    } else {
      assert init == "0";
      assert init[..0] == [];
    }
  }

  /** Printing the number a canonical numeral stands for gives that numeral back. */
  lemma {:induction false} NatToStringOfParse(s: string)
    requires IsDecimal(s)
    ensures NatToString(ParseNat(s)) == TrimLeadingZeros(s)
    decreases |s|
  {
    var t := TrimLeadingZeros(s);
    if |s| > 1 && s[0] == '0' {
      NatToStringOfParse(s[1..]);
      ParseNatDropsLeadingZero(s);
    } else {
      CanonicalRoundTrip(t);
    }
  }

  lemma {:induction false} CanonicalRoundTrip(s: string)
    requires IsDecimal(s) && (s[0] == '0' ==> s == "0")
    ensures NatToString(ParseNat(s)) == s
    decreases |s|
  {
    if |s| > 1 {
      var init := s[..|s| - 1];
      assert init[0] == s[0];
      CanonicalRoundTrip(init);
      var n := ParseNat(s);
      assert init != "0";
      assert n / 10 == ParseNat(init) && n % 10 == DigitValue(s[|s| - 1]);
      assert s == init + [s[|s| - 1]];
    }
  }

  /** A GUILD_ID holding a number, possibly padded with blanks, yields that number. */
  lemma GuildIdRoundTrip(n: nat, pad: string)
    requires AllSpace(pad)
    ensures GuildId(Some(pad + NatToString(n) + pad)) == Some(n)
  {
    var digits := NatToString(n);
    var v := pad + digits + pad;
    ConcatAssoc(pad, digits, pad);
    StripPrefixBlanks(pad, digits + pad);
    StripSuffixBlanks(digits, pad);
    assert Strip(v) == digits;
    ParseNatToString(n);
  }

  lemma {:induction false} StripPrefixBlanks(pad: string, s: string)
    requires AllSpace(pad) && s != [] && !IsSpace(s[0])
    ensures TrimStart(pad + s) == s
    decreases |pad|
  {
    var w := pad + s;
    if pad != [] {
      assert IsSpace(w[0]) by {
        assert w[0] == pad[0];
      }
      var back := pad[1..];
      assert AllSpace(back) by {
        forall i | 0 <= i < |back| ensures IsSpace(back[i]) {
          assert back[i] == pad[i + 1];
        }
      }
      assert w[1..] == back + s;
      TrimStartStep(w);
      StripPrefixBlanks(back, s);
    } else {
      assert w == s;
    }
  }

  lemma {:induction false} StripSuffixBlanks(s: string, pad: string)
    requires AllSpace(pad) && s != [] && !IsSpace(s[|s| - 1])
    ensures TrimEnd(s + pad) == s
    decreases |pad|
  {
    var w := s + pad;
    if pad != [] {
      assert IsSpace(w[|w| - 1]) by {
        assert w[|w| - 1] == pad[|pad| - 1];
      }
      var front := pad[..|pad| - 1];
      assert AllSpace(front) by {
        forall i | 0 <= i < |front| ensures IsSpace(front[i]) {
          assert front[i] == pad[i];
        }
      }
      assert w[..|w| - 1] == s + front;
      TrimEndStep(w);
      StripSuffixBlanks(s, front);
    } else {
      assert w == s;
    }
  }

  /** `Config.DEBUG`: the DEBUG value, default "False", equals "true" once lower-cased. */
  function Debug(env: Option<string>): (r: bool)
    ensures r <==> (env.Some? && |env.value| == 4 &&
                    forall i :: 0 <= i < 4 ==> LowerChar(env.value[i]) == "true"[i])
  {
    Lower(env.GetOr("False")) == "true"
  }

  /** `Config.LOG_LEVEL`: the LOG_LEVEL value, default "INFO", upper-cased. */
  function LogLevel(env: Option<string>): (r: string)
    ensures env.None? ==> r == "INFO"
    ensures env.Some? ==> (|r| == |env.value| &&
                           forall i :: 0 <= i < |r| ==> !IsLowerLetter(r[i]) && LowerChar(r[i]) == LowerChar(env.value[i]))
  {
    Upper(env.GetOr("INFO"))
  }

  /** `Config.DISCORD_TOKEN`: the DISCORD_TOKEN value, default empty. */
  function DiscordToken(env: Option<string>): (r: string)
    ensures env.None? ==> r == ""
    ensures env.Some? ==> r == env.value
  {
    env.GetOr("")
  }

  datatype Outcome = Pass | Fail(message: string)

  const MissingPrefix: string := "Missing required environment variables: "

  /** The names `Config.validate()` collects as missing. */
  function MissingVars(token: string): (r: seq<string>)
    ensures r == [] <==> token != ""
    ensures r != [] ==> r == ["DISCORD_TOKEN"]
  {
    if token == "" then ["DISCORD_TOKEN"] else []
  }

  /** `", ".join(names)` */
  function JoinComma(names: seq<string>): (r: string)
    ensures names == [] ==> r == ""
    ensures |names| == 1 ==> r == names[0]
    ensures |names| > 1 ==> StartsWith(r, names[0] + ", ")
  {
    if names == [] then "" else if |names| == 1 then names[0] else names[0] + ", " + JoinComma(names[1..])
  }

  /** `Config.validate()`: fails, naming DISCORD_TOKEN, exactly when the token is empty. */
  function Validate(token: string): (r: Outcome)
    ensures r.Fail? <==> token == ""
    ensures r.Fail? ==> StartsWith(r.message, MissingPrefix) && EndsWith(r.message, "DISCORD_TOKEN")
  {
    var missing := MissingVars(token);
    if missing != [] then
      var m := MissingPrefix + JoinComma(missing);
      assert m[..|MissingPrefix|] == MissingPrefix;
      assert m[|m| - |"DISCORD_TOKEN"|..] == "DISCORD_TOKEN";
      Fail(m)
    else
      Pass
  }
}
