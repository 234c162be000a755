/** The elapsed-time display `MM:SS`: minutes and seconds, each written in
    decimal and left-padded with '0' to at least two characters. */
module TimeFormat {

  datatype Option<T> = None | Some(value: T)

  predicate IsDigit(ch: char)
  {
    '0' <= ch <= '9'
  }

  predicate AllDigits(s: string)
  {
    forall i :: 0 <= i < |s| ==> IsDigit(s[i])
  }

  function DigitChar(k: nat): (ch: char)
    requires k < 10
    ensures IsDigit(ch)
  {
    ('0' as int + k) as char
  }

  function DigitValue(ch: char): (k: nat)
    requires IsDigit(ch)
    ensures k < 10 && DigitChar(k) == ch
  {
    ch as int - '0' as int
  }

  /** `String(n)` for a non-negative whole number: its decimal digits, with no
      leading zero except for 0 itself. */
  function Decimal(n: nat): (s: string)
    ensures 1 <= |s| && AllDigits(s)
    ensures |s| > 1 ==> s[0] != '0'
    ensures (n < 10 <==> |s| == 1) && (n < 100 <==> |s| <= 2)
  {
    if n < 10 then [DigitChar(n)] else Decimal(n / 10) + [DigitChar(n % 10)]
  }

  /** The number a string of decimal digits denotes. */
  function Value(s: string): nat
    requires AllDigits(s)
  {
    if |s| == 0 then 0 else Value(s[..|s| - 1]) * 10 + DigitValue(s[|s| - 1])
  }

  lemma {:induction false} ValueOfDecimal(n: nat)
    ensures Value(Decimal(n)) == n
  {
    if n >= 10 {
      var s := Decimal(n);
      assert s[..|s| - 1] == Decimal(n / 10);
      ValueOfDecimal(n / 10);
    }
  }

  function Repeat(ch: char, k: nat): (r: string)
    ensures |r| == k && forall i :: 0 <= i < k ==> r[i] == ch
  {
    seq(k, _ => ch)
  }

  /** `s.padStart(target, fill)` with a one-character `fill`: copies of `fill`
      are prepended until the string is `target` long; a string already that
      long is returned unchanged. */
  function PadStart(s: string, target: nat, fill: char): (r: string)
    ensures |r| == if |s| >= target then |s| else target
    ensures r[|r| - |s|..] == s
    ensures forall i :: 0 <= i < |r| - |s| ==> r[i] == fill
  {
    if |s| >= target then s else Repeat(fill, target - |s|) + s
  }

  /** A leading '0' does not change the number a digit string denotes. */
  lemma {:induction false} ValueLeadingZero(s: string)
    requires AllDigits(s)
    ensures AllDigits(['0'] + s) && Value(['0'] + s) == Value(s)
  {
    if |s| > 0 {
      var t := ['0'] + s;
      assert t[..|t| - 1] == ['0'] + s[..|s| - 1];
      ValueLeadingZero(s[..|s| - 1]);
    }
  }

  /** Any number of leading '0's leaves the value alone. */
  lemma {:induction false} ValueLeadingZeros(k: nat, s: string)
    requires AllDigits(s)
    ensures AllDigits(Repeat('0', k) + s) && Value(Repeat('0', k) + s) == Value(s)
  {
    if k > 0 {
      var z := Repeat('0', k - 1);
      assert Repeat('0', k) + s == ['0'] + (z + s);
      ValueLeadingZeros(k - 1, s);
      ValueLeadingZero(z + s);
    } else {
      assert Repeat('0', k) + s == s;
    }
  }

  /** Zero padding keeps a digit string a digit string and keeps its value. */
  lemma ValueZeroPadded(s: string, target: nat)
    requires AllDigits(s)
    ensures AllDigits(PadStart(s, target, '0'))
    ensures Value(PadStart(s, target, '0')) == Value(s)
  {
    if |s| < target {
      ValueLeadingZeros(target - |s|, s);
      assert PadStart(s, target, '0') == Repeat('0', target - |s|) + s;
    }
  }

  /** One field of the display: `String(n).padStart(2, '0')`. */
  function Field(n: nat): (f: string)
    ensures 2 <= |f| && AllDigits(f)
    ensures n < 100 <==> |f| == 2
    ensures n >= 10 ==> f == Decimal(n)
    ensures |f| > 2 ==> f[0] != '0'
  {
    var d := Decimal(n);
    var f := PadStart(d, 2, '0');
    assert f[|f| - |d|..] == d;
    f
  }

  lemma MinutesBelowHundred(seconds: nat)
    ensures seconds < 6000 <==> seconds / 60 < 100
  {
    var m, c := seconds / 60, seconds % 60;
    assert seconds == m * 60 + c && 0 <= c < 60;
  }

  /** The two fields joined by ':'. */
  function Join(m: string, c: string): (t: string)
    requires |c| == 2
    ensures |t| == |m| + 3 && t[|t| - 3] == ':'
    ensures t[..|t| - 3] == m && t[|t| - 2..] == c
  {
    var t := m + ":" + c;
    assert t[..|m|] == m;
    assert t[|m| + 1..] == c;
    t
  }

  /** `formatTime(seconds)`: whole minutes, ':', the remaining seconds, the
      seconds field exactly two characters; below 100 minutes the text is five
      characters long. That both fields are digit strings that denote the
      minutes and the seconds is ParseFormatTime below. */
  function FormatTime(seconds: nat): (t: string)
    ensures 5 <= |t| && t[|t| - 3] == ':'
    ensures seconds < 6000 <==> |t| == 5
  {
    var m := Field(seconds / 60);
    var c := Field(seconds % 60);
    assert seconds % 60 < 60;
    assert |c| == 2;
    MinutesBelowHundred(seconds);
    assert seconds < 6000 <==> |m| == 2;
    Join(m, c)
  }

  /** A minutes field as `formatTime` writes it: two digits, or more with no
      leading zero. */
  predicate MinutesField(m: string)
  {
    AllDigits(m) && (|m| == 2 || (|m| > 2 && m[0] != '0'))
  }

  /** With a seconds part below 60, minutes times 60 plus seconds splits back
      into the same minutes and seconds. */
  lemma SplitIsUnique(mins: nat, secs: nat)
    requires secs < 60
    ensures (mins * 60 + secs) / 60 == mins && (mins * 60 + secs) % 60 == secs
  {
  }

  /** Reads a display back into seconds: a minutes field, ':', then two digits
      below 60; `None` for any other text. This parser is the model's own
      inverse of `formatTime`; the game has none. */
  function ParseTime(t: string): (r: Option<nat>)
    ensures r.Some? ==> 5 <= |t| && t[|t| - 3] == ':'
    ensures r.Some? ==> MinutesField(t[..|t| - 3]) && AllDigits(t[|t| - 2..])
    ensures r.Some? ==> r.value / 60 == Value(t[..|t| - 3]) && r.value % 60 == Value(t[|t| - 2..])
  {
    if |t| >= 5 && t[|t| - 3] == ':' && MinutesField(t[..|t| - 3]) && AllDigits(t[|t| - 2..])
       && Value(t[|t| - 2..]) < 60
    then
      var mins, secs := Value(t[..|t| - 3]), Value(t[|t| - 2..]);
      SplitIsUnique(mins, secs);
      Some(mins * 60 + secs)
    else None
  }

  /** A field denotes the number it was made from. */
  lemma FieldValue(n: nat)
    ensures Value(Field(n)) == n
  {
    ValueOfDecimal(n);
    ValueZeroPadded(Decimal(n), 2);
  }

  /** Reading back two joined fields gives minutes times 60 plus seconds. */
  lemma ParseJoin(m: string, c: string, mins: nat, secs: nat)
    requires MinutesField(m) && |c| == 2 && AllDigits(c)
    requires Value(m) == mins && Value(c) == secs && secs < 60
    ensures ParseTime(Join(m, c)) == Some(mins * 60 + secs)
  {
    var t := Join(m, c);
    assert t[..|t| - 3] == m && t[|t| - 2..] == c && t[|t| - 3] == ':';
    assert Value(t[..|t| - 3]) == mins && Value(t[|t| - 2..]) == secs;
  }

  /** Reading back the fields of `mins` and `secs` gives mins*60 + secs. */
  lemma ParseFields(mins: nat, secs: nat)
    requires secs < 60
    ensures ParseTime(Join(Field(mins), Field(secs))) == Some(mins * 60 + secs)
  {
    FieldValue(mins);
    FieldValue(secs);
    ParseJoin(Field(mins), Field(secs), mins, secs);
  }

  lemma SplitRecombines(seconds: nat)
    ensures seconds % 60 < 60 && seconds == (seconds / 60) * 60 + seconds % 60
  {
  }

  /** The display determines the time it shows: minutes times 60 plus the
      seconds field (below 60) gives back the number formatted. */
  lemma ParseFormatTime(seconds: nat)
    ensures ParseTime(FormatTime(seconds)) == Some(seconds)
  {
    SplitRecombines(seconds);
    ParseFields(seconds / 60, seconds % 60);
  }

  /** A digit string with no leading zero (or the single digit 0) is what
      `String` writes for its value. */
  lemma {:induction false} DecimalOfValue(s: string)
    requires AllDigits(s) && 1 <= |s| && (|s| == 1 || s[0] != '0')
    ensures Decimal(Value(s)) == s
  {
    if |s| >= 2 {
      var p := s[..|s| - 1];
      var d := DigitValue(s[|s| - 1]);
      DecimalOfValue(p);
      ValueAtLeastOne(p);
      var v := Value(s);
      assert v == Value(p) * 10 + d && v >= 10;
      assert v / 10 == Value(p) && v % 10 == d;
      assert s == p + [s[|s| - 1]];
    }
  }

  lemma {:induction false} ValueAtLeastOne(s: string)
    requires AllDigits(s) && 1 <= |s| && s[0] != '0'
    ensures Value(s) >= 1
  {
    if |s| >= 2 {
      ValueAtLeastOne(s[..|s| - 1]);
    }
  }

  /** A minutes field is what `Field` writes for its value. */
  lemma FieldOfValue(m: string)
    requires MinutesField(m)
    ensures Field(Value(m)) == m
  {
    if m[0] != '0' {
      DecimalOfValue(m);
      assert PadStart(Decimal(Value(m)), 2, '0') == m;
    } else {
      var u := [m[1]];
      assert m == ['0'] + u;
      ValueLeadingZero(u);
      DecimalOfValue(u);
      assert Decimal(Value(m)) == u;
      assert PadStart(u, 2, '0') == Repeat('0', 1) + u;
    }
  }

  /** Conversely, every text the parser accepts is the display of the time it
      reads: so `ParseTime(t) == Some(s)` exactly when `t == FormatTime(s)`. */
  lemma FormatParseTime(t: string)
    requires ParseTime(t).Some?
    ensures FormatTime(ParseTime(t).value) == t
  {
    var m, c := t[..|t| - 3], t[|t| - 2..];
    var mins, secs := Value(m), Value(c);
    assert t == Join(m, c);
    FieldOfValue(m);
    FieldOfValue(c);
    SplitIsUnique(mins, secs);
    assert FormatTime(mins * 60 + secs) == Join(Field(mins), Field(secs));
  }

  /** Different times never show the same text. */
  lemma FormatTimeInjective(a: nat, b: nat)
    ensures FormatTime(a) == FormatTime(b) ==> a == b
  {
    ParseFormatTime(a);
    ParseFormatTime(b);
  }
}
