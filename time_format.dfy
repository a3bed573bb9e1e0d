/** `format_time(seconds)`: a whole number of seconds shown as `"Xh Ym Zs"`,
    `"Ym Zs"` or `"Zs"`, leaving out leading zero units. Python's `//` and `%`
    floor; for the positive divisors used here Dafny's `/` and `%` agree with
    them on every integer, negative ones included. */
module TimeFormat {
  import opened Outcomes
  import opened PyText

  datatype Clock = Clock(hours: int, minutes: nat, seconds: nat)

  /** `hours = s // 3600; minutes = (s % 3600) // 60; seconds = s % 60`:
      the three parts add back up to `s`, and minutes and seconds are below 60. */
  function Decompose(s: int): (c: Clock)
    ensures c.hours * 3600 + c.minutes * 60 + c.seconds == s
    ensures c.minutes < 60 && c.seconds < 60
    ensures s >= 0 ==> c.hours >= 0
  {
    Clock(s / 3600, (s % 3600) / 60, s % 60)
  }

  /** The decomposition is the only one with minutes and seconds below 60. */
  lemma DecomposeUnique(s: int, h: int, m: nat, sec: nat)
    requires m < 60 && sec < 60 && h * 3600 + m * 60 + sec == s
    ensures Decompose(s) == Clock(h, m, sec)
  {
    var r := m * 60 + sec;
    assert 0 <= r < 3600;
    assert s / 3600 == h;
    assert s % 3600 == r;
    assert r / 60 == m;
  }

  /** One field of the output, such as `f"{minutes}m"`; the fields shown
      are never negative. */
  function Field(n: nat, unit: char): string {
    NatToStr(n) + [unit]
  }

  /** `format_time(seconds)`. */
  function FormatTime(s: int): string {
    FormatClock(Decompose(s))
  }

  /** The f-strings of `format_time` on the decomposed time. */
  function FormatClock(c: Clock): string {
    if c.hours > 0 then
      Field(c.hours, 'h') + " " + Field(c.minutes, 'm') + " " + Field(c.seconds, 's')
    else if c.minutes > 0 then
      Field(c.minutes, 'm') + " " + Field(c.seconds, 's')
    else
      Field(c.seconds, 's')
  }

  /** The output always ends in the seconds unit; it shows an hours field
      exactly from one hour on and a minutes field exactly from one minute
      on (for non-negative input). */
  lemma FormatTimeShape(s: int)
    requires s >= 0
    ensures var r := FormatTime(s);
      && |r| >= 2 && r[|r| - 1] == 's'
      && ('h' in r <==> s >= 3600)
      && ('m' in r <==> s >= 60)
  {
    var c := Decompose(s);
    var h, m, z := NatToStr(c.hours), NatToStr(c.minutes), NatToStr(c.seconds);
    assert 'h' !in m && 'h' !in z && 'm' !in z && 'm' !in h && 'h' !in h && 'm' !in m;
    if c.hours > 0 {
      var r := h + "h " + m + "m " + z + "s";
      assert r[|h|] == 'h' && r[|h| + 2 + |m|] == 'm';
    } else if c.minutes > 0 {
      var r := m + "m " + z + "s";
      assert r[|m|] == 'm';
      assert 'h' !in r;
    } else {
      var r := z + "s";
      assert 'h' !in r && 'm' !in r;
    }
  }

  /** Floor division makes a negative count look like a time below one
      hour: `format_time(-1)` is `"59m 59s"`, not an error or a sign. */
  lemma FormatTimeNegative()
    ensures FormatTime(-1) == "59m 59s"
  {
    assert Decompose(-1) == Clock(-1, 59, 59);
    assert NatToStr(59) == "59";
  }

  // ---------------------------------------------------------------------
  // Reading a formatted time back

  predicate AllDigits(b: string) {
    forall i :: 0 <= i < |b| ==> IsDigit(b[i])
  }

  /** The number of seconds one field such as `"12m"` stands for: decimal
      digits followed by the unit letter. */
  function FieldValue(p: string): Option<int> {
    if |p| < 2 || !AllDigits(p[..|p| - 1]) then None
    else
      var v := GroupValue(p[..|p| - 1]) as int;
      var unit := p[|p| - 1];
      if unit == 'h' then Some(v * 3600)
      else if unit == 'm' then Some(v * 60)
      else if unit == 's' then Some(v)
      else None
  }

  /** The total of two field readings, which fails when either fails. */
  function AddFields(a: Option<int>, b: Option<int>): Option<int> {
    if a.Some? && b.Some? then Some(a.value + b.value) else None
  }

  function SumFields(ps: seq<string>): Option<int> {
    if ps == [] then Some(0) else AddFields(FieldValue(ps[0]), SumFields(ps[1..]))
  }

  /** Reads `"Xh Ym Zs"` (any of the fields) back into seconds. */
  function ParseDuration(t: string): Option<int> {
    SumFields(Split(t, " "))
  }

  lemma SumFieldsCons(p: string, ps: seq<string>)
    ensures SumFields([p] + ps) == AddFields(FieldValue(p), SumFields(ps))
  {
    var q := [p] + ps;
    assert q[0] == p;
    assert q[1..] == ps;
  }

  lemma ParseFieldsOne(z: string, vz: int)
    requires ' ' !in z
    requires FieldValue(z) == Some(vz)
    ensures ParseDuration(z) == Some(vz)
  {
    SplitWithout(z, ' ');
    SumFieldsCons(z, []);
    assert [z] + [] == [z];
  }

  lemma ParseFieldsTwo(m: string, z: string, vm: int, vz: int)
    requires ' ' !in m && ' ' !in z
    requires FieldValue(m) == Some(vm) && FieldValue(z) == Some(vz)
    ensures ParseDuration(m + " " + z) == Some(vm + vz)
  {
    ParseFieldsOne(z, vz);
    var rest := Split(z, " ");
    SplitAtFirst(m, ' ', z);
    assert Split(m + " " + z, " ") == [m] + rest;
    SumFieldsCons(m, rest);
    assert SumFields([m] + rest) == AddFields(Some(vm), Some(vz));
    assert ParseDuration(m + " " + z) == SumFields([m] + rest);
  }

  lemma ParseFieldsThree(h: string, m: string, z: string, vh: int, vm: int, vz: int)
    requires ' ' !in h && ' ' !in m && ' ' !in z
    requires FieldValue(h) == Some(vh) && FieldValue(m) == Some(vm) && FieldValue(z) == Some(vz)
    ensures ParseDuration(h + " " + m + " " + z) == Some(vh + vm + vz)
  {
    ParseFieldsTwo(m, z, vm, vz);
    assert h + " " + m + " " + z == h + " " + (m + " " + z);
    SplitAtFirst(h, ' ', m + " " + z);
    SumFieldsCons(h, Split(m + " " + z, " "));
  }

  /** One field written by `format_time` holds no space and reads back as
      its number of seconds. */
  lemma FieldText(n: nat, unit: char)
    requires unit == 'h' || unit == 'm' || unit == 's'
    ensures ' ' !in Field(n, unit)
    ensures FieldValue(Field(n, unit)) == Some(n * (if unit == 'h' then 3600 else if unit == 'm' then 60 else 1))
  {
    var p := Field(n, unit);
    assert p[..|p| - 1] == NatToStr(n);
    assert forall i :: 0 <= i < |NatToStr(n)| ==> IsDigit(NatToStr(n)[i]);
    NatToStrValue(n);
  }

  /** Reading the output of `format_time` back gives the number of seconds
      it was made from. */
  lemma ParseFormatTime(s: int)
    requires s >= 0
    ensures ParseDuration(FormatTime(s)) == Some(s)
  {
    ParseFormatClock(Decompose(s));
  }

  lemma ParseFormatClock(c: Clock)
    requires c.hours >= 0
    ensures ParseDuration(FormatClock(c)) == Some(c.hours * 3600 + c.minutes * 60 + c.seconds)
  {
    if c.hours > 0 {
      ParseHours(c.hours, c.minutes, c.seconds);
    } else if c.minutes > 0 {
      ParseMinutes(c.minutes, c.seconds);
    } else {
      ParseSeconds(c.seconds);
    }
  }

  lemma ParseHours(h: nat, m: nat, z: nat)
    ensures ParseDuration(Field(h, 'h') + " " + Field(m, 'm') + " " + Field(z, 's')) == Some(h * 3600 + m * 60 + z)
  {
    FieldText(h, 'h');
    FieldText(m, 'm');
    FieldText(z, 's');
    ParseFieldsThree(Field(h, 'h'), Field(m, 'm'), Field(z, 's'), h * 3600, m * 60, z);
  }

  lemma ParseMinutes(m: nat, z: nat)
    ensures ParseDuration(Field(m, 'm') + " " + Field(z, 's')) == Some(m * 60 + z)
  {
    FieldText(m, 'm');
    FieldText(z, 's');
    ParseFieldsTwo(Field(m, 'm'), Field(z, 's'), m * 60, z);
  }

  lemma ParseSeconds(z: nat)
    ensures ParseDuration(Field(z, 's')) == Some(z)
  {
    FieldText(z, 's');
    ParseFieldsOne(Field(z, 's'), z);
  }
}
