/**
 * The application-configuration handlers of server/routes/config_endpoints.py:
 * reading the configuration (durations shown as Python prints a
 * `timedelta`) and upserting key/value pairs into it. Both open with the
 * administrator guard of AdminEndpoints.
 */
module ConfigEndpoints {
  import opened Wrappers
  import opened Strings
  import opened Models
  import opened AdminEndpoints

  // ---------------------------------------------------------------------
  // Decimal text
  // ---------------------------------------------------------------------

  predicate IsDigit(c: char) { '0' <= c <= '9' }

  predicate AllDigits(s: string) { forall i :: 0 <= i < |s| ==> IsDigit(s[i]) }

  function Digit(d: int): (c: char)
    requires 0 <= d < 10
    ensures IsDigit(c) && c as int - '0' as int == d
  {
    ('0' as int + d) as char
  }

  /** `"%d" % n` for n >= 0: the decimal digits, without leading zeros. */
  function Decimal(n: nat): (s: string)
    ensures |s| >= 1 && AllDigits(s)
  {
    if n < 10 then [Digit(n)] else Decimal(n / 10) + [Digit(n % 10)]
  }

  /** The number a string of decimal digits denotes. */
  function DigitsValue(s: string): nat
    requires AllDigits(s)
  {
    if |s| == 0 then 0 else 10 * DigitsValue(s[..|s| - 1]) + (s[|s| - 1] as int - '0' as int)
  }

  /** Reading the digits back gives the number. */
  lemma {:induction false} DecimalValue(n: nat)
    ensures DigitsValue(Decimal(n)) == n
  {
    if n >= 10 {
      DecimalValue(n / 10);
      var s := Decimal(n);
      assert s[..|s| - 1] == Decimal(n / 10);
    }
  }

  /** `"%02d" % n` for 0 <= n < 100. */
  function TwoDigits(n: int): (s: string)
    requires 0 <= n < 100
    ensures |s| == 2 && AllDigits(s) && DigitsValue(s) == n
  {
    var s := [Digit(n / 10), Digit(n % 10)];
    assert s[..1] == [Digit(n / 10)] && s[..1][..0] == [];
    assert DigitsValue(s[..1]) == n / 10;
    s
  }

  /** `"%d" % i` for any integer. */
  function SignedDecimal(i: int): string
  {
    if i < 0 then "-" + Decimal(-i) else Decimal(i)
  }

  /** The integer an optionally signed decimal denotes, if the text is one. */
  function SignedValue(s: string): Option<int>
  {
    if |s| >= 2 && s[0] == '-' && AllDigits(s[1..]) then Some(-(DigitsValue(s[1..]) as int))
    else if |s| >= 1 && AllDigits(s) then Some(DigitsValue(s))
    else None
  }

  lemma SignedDecimalValue(i: int)
    ensures SignedValue(SignedDecimal(i)) == Some(i)
  {
    if i < 0 {
      DecimalValue(-i);
      assert SignedDecimal(i)[1..] == Decimal(-i);
    } else {
      DecimalValue(i);
    }
  }

  // ---------------------------------------------------------------------
  // str(timedelta)
  // ---------------------------------------------------------------------

  const SECONDS_PER_DAY := 86400

  /** "H:MM:SS" for 0 <= seconds < one day. */
  function Clock(seconds: int): string
    requires 0 <= seconds < SECONDS_PER_DAY
  {
    Join([Decimal(seconds / 3600), TwoDigits(seconds % 3600 / 60), TwoDigits(seconds % 60)], ':')
  }

  /** "day," or "days,": plural unless the count is 1 or -1 (the comma ends the day part). */
  function DayWord(days: int): string
  {
    if days == 1 || days == -1 then "day," else "days,"
  }

  /**
   * `str(timedelta(seconds=seconds))` for a whole number of seconds:
   * "H:MM:SS" within a day, otherwise prefixed by "D day, " or "D days, ".
   * As in Python, the days are floored, so a negative span reads
   * "-1 day, 23:59:59".
   */
  function DurationText(seconds: int): string
  {
    var days := seconds / SECONDS_PER_DAY;
    var clock := Clock(seconds % SECONDS_PER_DAY);
    if days == 0 then clock else Join([SignedDecimal(days), DayWord(days), clock], ' ')
  }

  /** The seconds an "H:MM:SS" text denotes, if it is one. */
  function ClockValue(c: string): Option<int>
  {
    var f := Split(c, ':');
    if |f| == 3 && |f[0]| >= 1 && AllDigits(f[0]) && |f[1]| == 2 && AllDigits(f[1]) && |f[2]| == 2 && AllDigits(f[2])
    then Some(DigitsValue(f[0]) * 3600 + DigitsValue(f[1]) * 60 + DigitsValue(f[2]))
    else None
  }

  /** The seconds a text in `str(timedelta)` form denotes, if it is one. */
  function DurationValue(t: string): Option<int>
  {
    var w := Split(t, ' ');
    if |w| == 1 then ClockValue(w[0])
    else if |w| == 3 && SignedValue(w[0]).Some? && w[1] in {"day,", "days,"} && ClockValue(w[2]).Some?
    then Some(SignedValue(w[0]).value * SECONDS_PER_DAY + ClockValue(w[2]).value)
    else None
  }

  lemma DigitsHaveNoSeparator(s: string, sep: char)
    requires AllDigits(s) && !IsDigit(sep)
    ensures sep !in s
  {
  }

  /** Hours, minutes and seconds put back together. */
  lemma ClockArithmetic(seconds: int)
    requires 0 <= seconds
    ensures (seconds / 3600) * 3600 + (seconds % 3600 / 60) * 60 + seconds % 60 == seconds
  {
    var h, r := seconds / 3600, seconds % 3600;
    assert seconds == h * 3600 + r;
    assert r == (r / 60) * 60 + r % 60;
    assert r % 60 == seconds % 60 by {
      assert seconds == h * 60 * 60 + r;
      assert seconds == (h * 60 + r / 60) * 60 + r % 60;
    }
  }

  /** The clock text reads back as the seconds it was made from. */
  lemma ClockRoundTrip(seconds: int)
    requires 0 <= seconds < SECONDS_PER_DAY
    ensures ClockValue(Clock(seconds)) == Some(seconds)
  {
    var h, m, s := seconds / 3600, seconds % 3600 / 60, seconds % 60;
    var parts := [Decimal(h), TwoDigits(m), TwoDigits(s)];
    DigitsHaveNoSeparator(parts[0], ':');
    DigitsHaveNoSeparator(parts[1], ':');
    DigitsHaveNoSeparator(parts[2], ':');
    SplitJoin(parts, ':');
    assert Split(Clock(seconds), ':') == parts;
    DecimalValue(h);
    ClockArithmetic(seconds);
    assert ClockValue(Clock(seconds)) == Some(DigitsValue(parts[0]) * 3600 + DigitsValue(parts[1]) * 60 + DigitsValue(parts[2]));
  }

  /** The text Python prints for a duration reads back as that duration. */
  lemma {:induction false} DurationRoundTrip(seconds: int)
    ensures DurationValue(DurationText(seconds)) == Some(seconds)
  {
    var days := seconds / SECONDS_PER_DAY;
    var rem := seconds % SECONDS_PER_DAY;
    ClockRoundTrip(rem);
    var clock := Clock(rem);
    assert ' ' !in clock by {
      var parts := [Decimal(rem / 3600), TwoDigits(rem % 3600 / 60), TwoDigits(rem % 60)];
      JoinAvoids(parts, ':', ' ');
    }
    if days == 0 {
      SplitNoSeparator(clock, ' ');
      assert seconds == rem;
    } else {
      var parts := [SignedDecimal(days), DayWord(days), clock];
      assert ' ' !in parts[0] by {
        if days < 0 {
          DigitsHaveNoSeparator(Decimal(-days), ' ');
        } else {
          DigitsHaveNoSeparator(Decimal(days), ' ');
        }
      }
      SplitJoin(parts, ' ');
      assert Split(DurationText(seconds), ' ') == parts;
      SignedDecimalValue(days);
      assert seconds == days * SECONDS_PER_DAY + rem;
    }
  }

  // ---------------------------------------------------------------------
  // get_config
  // ---------------------------------------------------------------------

  /** How get_config shows one value: a duration as its text, anything else unchanged. */
  function Shown(v: ConfigValue): (r: ConfigValue)
    ensures v.Duration? ==> r.Text? && DurationValue(r.text) == Some(v.seconds)
    ensures !v.Duration? ==> r == v
  {
    if v.Duration? then
      DurationRoundTrip(v.seconds);
      Text(DurationText(v.seconds))
    else v
  }

  /** `keys` lists the keys of `config`, as iterating the dict does. */
  predicate EnumeratesKeys(keys: seq<string>, config: map<string, ConfigValue>)
  {
    && (forall i :: 0 <= i < |keys| ==> keys[i] in config)
    && (forall k :: k in config ==> k in keys)
  }

  datatype ConfigReply = Refused(reply: Reply) | Config(entries: map<string, ConfigValue>)

  /**
   * get_config: after the guard, every value is visited in the dict's
   * order and each duration is replaced by its text; the stored table is
   * not changed.
   */
  method GetConfig(db: Db, callerId: string, keys: seq<string>) returns (r: ConfigReply)
    requires EnumeratesKeys(keys, db.config)
    ensures AdminRefusal(db.users, callerId, "Invalid user").Some? ==>
              r == Refused(AdminRefusal(db.users, callerId, "Invalid user").value)
    ensures IsAdmin(db.users, callerId) ==> r.Config?
    ensures r.Config? ==> r.entries.Keys == db.config.Keys
    ensures r.Config? ==> forall k :: k in r.entries ==> !r.entries[k].Duration?
    ensures r.Config? ==> forall k :: k in r.entries && !db.config[k].Duration? ==> r.entries[k] == db.config[k]
    ensures r.Config? ==> forall k :: k in r.entries && db.config[k].Duration? ==>
              r.entries[k].Text? && DurationValue(r.entries[k].text) == Some(db.config[k].seconds)
  {
    var refusal := AdminRefusal(db.users, callerId, "Invalid user");
    if refusal.Some? {
      return Refused(refusal.value);
    }
    var config := db.config;
    for i := 0 to |keys|
      invariant config.Keys == db.config.Keys
      invariant forall k :: k in config ==> config[k] == (if k in keys[..i] then Shown(db.config[k]) else db.config[k])
    {
      assert keys[..i + 1] == keys[..i] + [keys[i]];
      config := config[keys[i] := Shown(config[keys[i]])];
    }
    assert keys[..|keys|] == keys;
    r := Config(config);
  }

  // ---------------------------------------------------------------------
  // update_config
  // ---------------------------------------------------------------------

  /**
   * update_config: after the guard, an absent or empty body is refused
   * (400); otherwise each pair of the body, in its order, updates the
   * entry with that key or creates it. The handler then ends without a
   * response, which the model leaves open (None).
   */
  method UpdateConfig(db: Db, callerId: string, body: Option<map<string, ConfigValue>>, order: seq<string>)
    returns (reply: Option<Reply>)
    requires body.Some? ==> EnumeratesKeys(order, body.value)
    modifies db
    ensures AdminRefusal(old(db.users), callerId, "Invalid user").Some? ==>
              reply == Some(AdminRefusal(old(db.users), callerId, "Invalid user").value) && db.State() == old(db.State())
    ensures IsAdmin(old(db.users), callerId) && (body.None? || body.value == map[]) ==>
              reply == Some(Reply(400, "No config provided")) && db.State() == old(db.State())
    ensures IsAdmin(old(db.users), callerId) && body.Some? && body.value != map[] ==>
              && reply.None?
              && db.config.Keys == old(db.config).Keys + body.value.Keys
              && (forall k :: k in body.value ==> db.config[k] == body.value[k])
              && (forall k :: k in old(db.config) && k !in body.value ==> db.config[k] == old(db.config)[k])
              && db.State() == old(db.State()).(config := db.config)
  {
    var refusal := AdminRefusal(db.users, callerId, "Invalid user");
    if refusal.Some? {
      return Some(refusal.value);
    }
    if body.None? || body.value == map[] {
      return Some(Reply(400, "No config provided"));
    }
    var pairs := body.value;
    for i := 0 to |order|
      invariant db.config.Keys == old(db.config).Keys + (set j | 0 <= j < i :: order[j])
      invariant forall k :: k in db.config ==>
                  db.config[k] == (if k in order[..i] then pairs[k] else old(db.config)[k])
      invariant db.State() == old(db.State()).(config := db.config)
    {
      assert order[..i + 1] == order[..i] + [order[i]];
      assert (set j | 0 <= j < i + 1 :: order[j]) == (set j | 0 <= j < i :: order[j]) + {order[i]};
      db.config := db.config[order[i] := pairs[order[i]]];
    }
    assert order[..|order|] == order;
    assert (set j | 0 <= j < |order| :: order[j]) == pairs.Keys;
    reply := None;
  }
}
