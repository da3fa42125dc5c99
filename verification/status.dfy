/** The two display rules of frontend/src/components/GameStatus.tsx: the
    `m:ss` countdown and the "Current Clue" label. */
module GameStatus {
  import opened Wrappers
  import GameModel

  predicate IsDigits(s: string)
  {
    forall i :: 0 <= i < |s| ==> '0' <= s[i] <= '9'
  }

  function DigitChar(d: int): char
    requires 0 <= d < 10
  {
    ('0' as int + d) as char
  }

  /** The decimal digits of `n`, as a template literal prints a non-negative integer. */
  function NatToString(n: nat): (r: string)
    ensures |r| >= 1 && IsDigits(r)
    ensures n < 10 ==> |r| == 1
    ensures 10 <= n < 100 ==> |r| == 2
    decreases n
  {
    if n < 10 then [DigitChar(n)] else NatToString(n / 10) + [DigitChar(n % 10)]
  }

  /** A template literal printing an integer: a minus sign for negatives. */
  function IntToString(i: int): (r: string)
    ensures |r| >= 1 && (r[0] == '-' || '0' <= r[0] <= '9')
    ensures i >= 0 ==> r == NatToString(i)
  {
    if i < 0 then "-" + NatToString(-i) else NatToString(i)
  }

  /** Reading a string of decimal digits back as a number. */
  function ParseDigits(s: string): nat
    requires IsDigits(s)
    decreases |s|
  {
    if s == [] then 0
    else ParseDigits(s[..|s| - 1]) * 10 + (s[|s| - 1] as int - '0' as int)
  }

  lemma {:induction false} ParseNatToString(n: nat)
    ensures ParseDigits(NatToString(n)) == n
    decreases n
  {
    if n >= 10 {
      var r := NatToString(n);
      ParseNatToString(n / 10);
      assert r[..|r| - 1] == NatToString(n / 10);
    }
  }

  /** JavaScript's `%`: the remainder has the sign of the dividend. */
  function JsRem(a: int, b: int): (r: int)
    requires b > 0
    ensures a >= 0 ==> 0 <= r < b && r == a % b
    ensures a < 0 ==> -b < r <= 0
  {
    if a >= 0 then a % b else -((-a) % b)
  }

  /** Unlike Dafny's `%`, JavaScript's is odd in its dividend. */
  lemma JsRemOdd(a: int, b: int)
    requires b > 0
    ensures JsRem(-a, b) == -JsRem(a, b)
  {
  }

  /** The seconds field: a leading "0" when `secs < 10`, then `secs` itself. */
  function SecondsField(secs: int): string
  {
    (if secs < 10 then "0" else "") + IntToString(secs)
  }

  /** `formatTime(seconds)`. `Math.floor(seconds / 60)` is Dafny's division,
      which floors for a positive divisor; the remainder follows JavaScript. */
  function FormatTime(seconds: int): string
  {
    IntToString(seconds / 60) + ":" + SecondsField(JsRem(seconds, 60))
  }

  /** For a non-negative count the reading is minutes, a colon, then exactly
      two digits of seconds below 60, zero-padded when under ten; minutes and
      seconds together give back the count. */
  lemma FormatTimeFields(seconds: int)
    requires seconds >= 0
    ensures var r := FormatTime(seconds);
      && |r| >= 4 && r[|r| - 3] == ':'
      && IsDigits(r[..|r| - 3]) && IsDigits(r[|r| - 2..])
      && ParseDigits(r[..|r| - 3]) == seconds / 60
      && ParseDigits(r[|r| - 2..]) == seconds % 60 < 60
      && ParseDigits(r[..|r| - 3]) * 60 + ParseDigits(r[|r| - 2..]) == seconds
      && (r[|r| - 2] == '0' <==> seconds % 60 < 10)
  {
    var mins := seconds / 60;
    var secs := seconds % 60;
    assert mins * 60 + secs == seconds;
    SecondsFieldDigits(secs);
    ParseNatToString(mins);
    FormatTimeLayout(seconds);
  }

  /** For a non-negative count the text is the minutes, ':' and the seconds field. */
  lemma FormatTimeLayout(seconds: int)
    requires seconds >= 0
    ensures var r := FormatTime(seconds);
      && |r| >= 4 && r[|r| - 3] == ':'
      && r[..|r| - 3] == NatToString(seconds / 60) && r[|r| - 2..] == SecondsField(seconds % 60)
  {
    SecondsFieldDigits(seconds % 60);
    assert FormatTime(seconds) == NatToString(seconds / 60) + ":" + SecondsField(seconds % 60);
    ClockFields(NatToString(seconds / 60), SecondsField(seconds % 60));
  }

  /** Joining a minutes field and a two-character seconds field around ':'
      puts the ':' third from the end, with each field recoverable. */
  lemma ClockFields(m: string, f: string)
    requires |m| >= 1 && |f| == 2
    ensures var r := m + ":" + f;
      && |r| >= 4 && r[|r| - 3] == ':' && r[..|r| - 3] == m && r[|r| - 2..] == f
  {
    var r := m + ":" + f;
    assert r[..|r| - 3] == m;
    assert r[|r| - 2..] == f;
  }

  /** For `0 <= secs < 60` the field is two digits that read back as `secs`,
      the first one "0" exactly when `secs < 10`. */
  lemma SecondsFieldDigits(secs: int)
    requires 0 <= secs < 60
    ensures |SecondsField(secs)| == 2 && IsDigits(SecondsField(secs))
    ensures ParseDigits(SecondsField(secs)) == secs
    ensures SecondsField(secs)[0] == '0' <==> secs < 10
  {
    var f := SecondsField(secs);
    if secs < 10 {
      assert f == "0" + [DigitChar(secs)];
      assert f[..1] == "0";
      assert ParseDigits(f[..1]) == 0 by { assert f[..1][..0] == []; }
    } else {
      var hi, lo := secs / 10, secs % 10;
      assert hi * 10 + lo == secs;
      assert NatToString(hi) == [DigitChar(hi)];
      assert NatToString(secs) == NatToString(hi) + [DigitChar(lo)];
      assert f == [DigitChar(hi), DigitChar(lo)];
      assert f[..1] == [DigitChar(hi)];
      assert ParseDigits(f[..1]) == hi by { assert f[..1][..0] == []; }
    }
  }

  /** Reading an `m:ss` string back as seconds: the reference for `FormatTime`. */
  function ParseTime(r: string): Option<int>
  {
    if |r| >= 4 && r[|r| - 3] == ':' && IsDigits(r[..|r| - 3]) && IsDigits(r[|r| - 2..]) then
      var secs := ParseDigits(r[|r| - 2..]);
      if secs < 60 then Some(ParseDigits(r[..|r| - 3]) * 60 + secs) else None
    else None
  }

  /** Every non-negative count of seconds formats to a clock reading that reads
      back as the same count: minutes never roll over into hours. */
  lemma FormatTimeRoundTrip(seconds: int)
    requires seconds >= 0
    ensures ParseTime(FormatTime(seconds)) == Some(seconds)
  {
    FormatTimeFields(seconds);
  }

  lemma FormatTimeExamples()
    ensures FormatTime(120) == "2:00"
    ensures FormatTime(65) == "1:05"
    ensures FormatTime(0) == "0:00"
    ensures FormatTime(-5) == "-1:0-5"
  {
    assert NatToString(2) == "2" && NatToString(0) == "0" && NatToString(1) == "1" && NatToString(5) == "5";
    assert IntToString(-1) == "-1" && IntToString(-5) == "-5";
  }

  /** The "Current Clue" label. */
  function ClueLabel(currentClue: int, totalClues: int): (r: string)
    ensures r == "Completed" <==> currentClue > totalClues
    ensures 0 <= currentClue <= totalClues ==> IsDigits(r) && ParseDigits(r) == currentClue
  {
    if currentClue > totalClues then "Completed"
    else
      assert currentClue >= 0 ==> ParseDigits(IntToString(currentClue)) == currentClue by {
        if currentClue >= 0 { ParseNatToString(currentClue); }
      }
      IntToString(currentClue)
  }

  /** On a reachable state the label reads "Completed" only for a finished
      game; a game that ran out of time before its last clue still shows the
      clue number it stopped at. */
  lemma ClueLabelOfGame(s: GameModel.GameState)
    requires GameModel.Valid(s)
    ensures ClueLabel(s.currentClue, s.totalClues) == "Completed" ==> s.completed
    ensures s.currentClue <= s.totalClues ==> ParseDigits(ClueLabel(s.currentClue, s.totalClues)) == s.currentClue
  {
  }
}
