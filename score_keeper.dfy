/**
 * The score bookkeeping of the orb-collecting game (ScoreKeeper.cs): how many orbs the
 * player carries and has deposited, the countdown of the game clock, the timer text and the
 * win test at the end. Sounds, GUI objects and the level reload are not part of the model.
 */
module Score {

  datatype Option<T> = None | Some(value: T)

  // ---------------------------------------------------------------------------------------
  // Decimal text of a number
  // ---------------------------------------------------------------------------------------

  function DigitChar(d: nat): (c: char)
    requires d < 10
    ensures '0' <= c <= '9' && c as int - '0' as int == d
  {
    ('0' as int + d) as char
  }

  predicate IsDigit(c: char)
  {
    '0' <= c <= '9'
  }

  /** `int.ToString()` of a non-negative number: its decimal digits, most significant first. */
  function Digits(n: nat): (s: string)
    ensures |s| >= 1 && forall i :: 0 <= i < |s| ==> IsDigit(s[i])
    ensures |s| == 1 <==> n < 10
    decreases n
  {
    if n < 10 then [DigitChar(n)] else Digits(n / 10) + [DigitChar(n % 10)]
  }

  /** The number a string of digits spells. */
  function Value(s: string): (n: nat)
    requires forall i :: 0 <= i < |s| ==> IsDigit(s[i])
  {
    if s == [] then 0 else Value(s[..|s| - 1]) * 10 + DigitValue(s[|s| - 1])
  }

  function DigitValue(c: char): (d: nat)
    requires IsDigit(c)
    ensures d < 10 && DigitChar(d) == c
  {
    c as int - '0' as int
  }

  /** Reading the digits back gives the number. */
  lemma {:induction false} DigitsValue(n: nat)
    ensures Value(Digits(n)) == n
    decreases n
  {
    if n >= 10 {
      DigitsValue(n / 10);
      var s := Digits(n);
      assert s[..|s| - 1] == Digits(n / 10);
    }
  }

  // ---------------------------------------------------------------------------------------
  // The timer text
  // ---------------------------------------------------------------------------------------

  /** The two-digit seconds of `TimeRemaining`: `ToString` of a number below 60, a "0" put in
      front when that is a single digit. */
  function Seconds(s: nat): (r: string)
    requires s < 60
    ensures |r| == 2 && r[0] == DigitChar(s / 10) && r[1] == DigitChar(s % 10)
  {
    var t := Digits(s);
    assert s >= 10 ==> t == Digits(s / 10) + [DigitChar(s % 10)] && Digits(s / 10) == [DigitChar(s / 10)];
    if |t| < 2 then "0" + t else t
  }

  /** `TimeRemaining` for the whole seconds left: minutes and a dot from one minute on, then
      the two-digit seconds; nothing once the time is negative. */
  function TimeRemaining(remaining: int): (s: string)
    ensures remaining < 0 ==> s == ""
    ensures 0 <= remaining < 60 ==> |s| == 2 && s == Seconds(remaining)
    ensures remaining >= 60 ==> s == Digits(remaining / 60) + "." + Seconds(remaining % 60)
  {
    (if remaining > 59 then Digits(remaining / 60) + "." else "") +
    (if remaining >= 0 then Seconds(remaining % 60) else "")
  }

  /** Reads a timer text back: "" is a negative time, "m.ss" minutes and seconds, "ss"
      seconds alone; anything else is rejected. */
  function ReadTime(s: string): (r: Option<int>)
  {
    if s == "" then Some(-1)
    else if |s| >= 4 && s[|s| - 3] == '.' && AllDigits(s[..|s| - 3]) && AllDigits(s[|s| - 2..]) then
      Some(Value(s[..|s| - 3]) * 60 + Value(s[|s| - 2..]))
    else if |s| == 2 && AllDigits(s) then Some(Value(s))
    else None
  }

  predicate AllDigits(s: string)
  {
    forall i :: 0 <= i < |s| ==> IsDigit(s[i])
  }

  /** Two seconds digits read back as the seconds. */
  lemma SecondsValue(s: nat)
    requires s < 60
    ensures AllDigits(Seconds(s)) && Value(Seconds(s)) == s
  {
    var r := Seconds(s);
    assert r[..1][..0] == [];
    assert Value(r[..1]) == s / 10;
  }

  /** The timer text loses nothing: every time of at least zero reads back as itself, and
      every negative time shows as "", so two non-negative times never show alike. */
  lemma TimeRemainingReads(remaining: int)
    ensures remaining >= 0 ==> ReadTime(TimeRemaining(remaining)) == Some(remaining)
    ensures remaining < 0 ==> ReadTime(TimeRemaining(remaining)) == Some(-1)
  {
    if remaining >= 60 {
      SecondsValue(remaining % 60);
      DigitsValue(remaining / 60);
      ReadMinutes(Digits(remaining / 60), Seconds(remaining % 60));
      assert (remaining / 60) * 60 + remaining % 60 == remaining;
    } else if remaining >= 0 {
      SecondsValue(remaining);
      assert TimeRemaining(remaining) == Seconds(remaining);
    }
  }

  /** Minutes, a dot and two digits read back as minutes and seconds. */
  lemma ReadMinutes(m: string, ss: string)
    requires |m| >= 1 && AllDigits(m) && |ss| == 2 && AllDigits(ss)
    ensures ReadTime(m + "." + ss) == Some(Value(m) * 60 + Value(ss))
  {
    var s := m + "." + ss;
    assert |s| == |m| + 3 && s[|m|] == '.';
    assert s[..|m|] == m;
    assert s[|m| + 1..] == ss;
  }

  /** What `UpdateTimerGui` shows for t seconds left. */
  function TimerText(t: int): string
  {
    "Time: " + TimeRemaining(t)
  }

  /** The first n timer texts of a countdown from t0, one a second. */
  function Countdown(t0: int, n: nat): (r: seq<string>)
    ensures |r| == n
  {
    if n == 0 then [] else Countdown(t0, n - 1) + [TimerText(t0 - (n - 1))]
  }

  /** The i-th text of a countdown shows t0 - i seconds. */
  lemma {:induction false} CountdownAt(t0: int, n: nat, i: nat)
    requires i < n
    ensures Countdown(t0, n)[i] == TimerText(t0 - i)
  {
    if i < n - 1 {
      CountdownAt(t0, n - 1, i);
    }
  }

  // ---------------------------------------------------------------------------------------
  // The keeper
  // ---------------------------------------------------------------------------------------

  /** `ScoreKeeper`'s counters. The time left is a float in the game, set from the whole
      game length and lowered by 1.0 a second, so it only holds whole numbers. */
  class ScoreKeeper {
    var carrying: int
    var deposited: int
    const carryLimit: int
    const winScore: int
    const gameLength: int
    var timeLeft: int

    /** The player never carries more than the limit, and no count is negative. */
    ghost predicate Valid()
      reads this
    {
      0 <= carrying && (carrying <= carryLimit || carrying == 0) && 0 <= deposited
    }

    /** The orbs collected so far, carried or deposited. */
    function Collected(): int
      reads this
    {
      carrying + deposited
    }

    /** The win test of `EndGame`. */
    predicate Won()
      reads this
    {
      deposited >= winScore
    }

    /** `Start`, with the editor's settings: nothing carried or deposited, the whole game
        length left. */
    constructor (carryLimit: int, winScore: int, gameLength: int)
      ensures Valid() && carrying == 0 && deposited == 0 && timeLeft == gameLength
      ensures this.carryLimit == carryLimit && this.winScore == winScore && this.gameLength == gameLength
    {
      this.carryLimit := carryLimit;
      this.winScore := winScore;
      this.gameLength := gameLength;
      carrying := 0;
      deposited := 0;
      timeLeft := gameLength;
    }

    /** `Pickup`: one more orb carried exactly when there is room (`picked`); `full` says
        the depository is shown, once the limit is reached. */
    method Pickup() returns (picked: bool, full: bool)
      requires Valid()
      modifies this
      ensures Valid()
      ensures picked <==> old(carrying) < carryLimit
      ensures carrying == old(carrying) + (if picked then 1 else 0)
      ensures deposited == old(deposited) && timeLeft == old(timeLeft)
      ensures Collected() == old(Collected()) + (if picked then 1 else 0)
      ensures full <==> carrying >= carryLimit
    {
      picked := carrying < carryLimit;
      if picked {
        carrying := carrying + 1;
      }
      full := carrying >= carryLimit;
    }

    /** `Deposit`: everything carried is deposited; nothing collected is lost, and a won game
        stays won. */
    method Deposit()
      requires Valid()
      modifies this
      ensures Valid()
      ensures carrying == 0 && deposited == old(deposited) + old(carrying) && timeLeft == old(timeLeft)
      ensures Collected() == old(Collected())
      ensures old(Won()) ==> Won()
    {
      deposited := deposited + carrying;
      carrying := 0;
    }

    /** `CheckTime`: the timer text is shown, then a second goes by, as long as time is left;
        the text is shown once more and the game ends. The time then stands at zero, or where
        it was when it was not positive to begin with; `shown` lists the texts in order and
        `won` is the outcome `EndGame` shows. */
    method CheckTime() returns (shown: seq<string>, won: bool)
      requires Valid()
      modifies this
      ensures Valid() && carrying == old(carrying) && deposited == old(deposited)
      ensures timeLeft == if old(timeLeft) > 0 then 0 else old(timeLeft)
      ensures shown == Countdown(old(timeLeft), old(timeLeft) - timeLeft + 1)
      ensures won <==> Won()
    {
      shown := [];
      ghost var t0 := timeLeft;
      while timeLeft > 0
        invariant timeLeft <= t0 && (t0 > 0 ==> timeLeft >= 0) && (t0 <= 0 ==> timeLeft == t0)
        invariant shown == Countdown(t0, t0 - timeLeft)
        invariant carrying == old(carrying) && deposited == old(deposited)
        decreases timeLeft
      {
        assert Countdown(t0, t0 - timeLeft + 1) == Countdown(t0, t0 - timeLeft) + [TimerText(timeLeft)];
        shown := shown + [TimerText(timeLeft)];
        timeLeft := timeLeft - 1;
      }
      assert Countdown(t0, t0 - timeLeft + 1) == Countdown(t0, t0 - timeLeft) + [TimerText(timeLeft)];
      shown := shown + [TimerText(timeLeft)];
      won := deposited >= winScore;
    }
  }
}
