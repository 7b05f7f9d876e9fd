/**
 * Several independent villages played side by side (multigame.py): at most
 * nine of them, one active at a time, chosen with the digit keys; `q` stops
 * them all.
 */
module MultiGames {
  import opened Wrappers
  import opened Village

  /** The most villages the game keeps. */
  const MAX_VILLAGES: int := 9

  /** A key as the terminal reports it: nothing, a curses key code, or a blessed keystroke string. */
  datatype Key = NoKey | Code(code: int) | Text(text: string)

  /** `key in (ord("q"), "q")`. */
  predicate IsQuit(key: Key)
  {
    key == Code(113) || key == Text("q")
  }

  /** `s in t` on strings: `s` occurs in `t` as a contiguous block. */
  predicate Occurs(s: string, t: string)
  {
    exists i, j | 0 <= i <= j <= |t| :: t[i..j] == s
  }

  /** The string the selection keys are looked up in. */
  const DIGITS: string := "123456789"

  predicate AllDigits(s: string)
  {
    forall k :: 0 <= k < |s| ==> '0' <= s[k] <= '9'
  }

  /** `int(s)` on a string of decimal digits. */
  function DecimalValue(s: string): (v: nat)
    requires AllDigits(s)
    ensures s != [] && s[|s| - 1] != '0' ==> v >= 1
  {
    if s == [] then 0
    else 10 * DecimalValue(s[..|s| - 1]) + (s[|s| - 1] - '0') as int
  }

  /** A block of "123456789" is a string of non-zero digits. */
  lemma BlockOfDigits(s: string)
    requires Occurs(s, DIGITS)
    ensures AllDigits(s) && (s != [] ==> s[|s| - 1] != '0')
  {
    var i, j :| 0 <= i <= j <= |DIGITS| && DIGITS[i..j] == s;
    NonZeroDigits();
    assert forall k :: 0 <= k < |s| ==> s[k] == DIGITS[i + k];
  }

  /** Every character of DIGITS is a digit other than `0`. */
  lemma NonZeroDigits()
    ensures |DIGITS| == 9 && forall k :: 0 <= k < |DIGITS| ==> '1' <= DIGITS[k] <= '9'
  {
    assert DIGITS == ['1', '2', '3', '4', '5', '6', '7', '8', '9'];
  }

  /**
   * The number a key selects: a key code from `ord("1")` to `ord("9")`, or a
   * non-empty string found in "123456789" (any run of consecutive digits,
   * read as one number); nothing for any other key.
   */
  function Selected(key: Key): (d: Option<nat>)
    ensures d.Some? ==> d.value >= 1
  {
    match key
    case NoKey => None
    case Code(c) => if 49 <= c <= 57 then Some(c - 48) else None
    case Text(s) =>
      if s != [] && Occurs(s, DIGITS) then
        BlockOfDigits(s);
        Some(DecimalValue(s))
      else None
  }

  /** A single digit key selects that digit, as a code or as a string. */
  lemma SelectedDigit(c: char)
    requires '1' <= c <= '9'
    ensures Selected(Code(c as int)) == Some((c - '0') as nat)
    ensures Selected(Text([c])) == Some((c - '0') as nat)
  {
    var i := (c - '1') as int;
    assert DIGITS[i..i + 1] == [c];
    assert DecimalValue([c]) == 10 * DecimalValue([]) + (c - '0') as int;
  }

  /** Quitting and choosing a village are separate: the quit keys select nothing. */
  lemma QuitSelectsNothing(key: Key)
    requires IsQuit(key)
    ensures Selected(key).None?
  {
    if key == Text("q") && Occurs("q", DIGITS) {
      BlockOfDigits("q");
    }
  }

  class MultiGame {
    var villages: seq<Game>
    var active: int
    var running: bool

    /** Between one and nine villages, and the active index names one of them. */
    predicate Valid()
      reads this
    {
      1 <= |villages| <= MAX_VILLAGES && 0 <= active < |villages|
    }

    /** `__init__` with the first village already built; it is set running. */
    constructor (first: Game)
      modifies first`running
      ensures villages == [first] && active == 0 && !running && first.running
      ensures Valid()
    {
      first.running := true;
      villages := [first];
      active := 0;
      running := false;
    }

    /**
     * `_add_village`: at nine villages nothing happens; otherwise the new
     * village `g` (built from a random seed) is set running and appended.
     */
    method AddVillage(g: Game)
      requires Valid()
      modifies this`villages, g`running
      ensures Valid()
      ensures old(|villages|) >= MAX_VILLAGES ==> villages == old(villages) && g.running == old(g.running)
      ensures old(|villages|) < MAX_VILLAGES ==> villages == old(villages) + [g] && g.running
    {
      if |villages| >= MAX_VILLAGES {
        return;
      }
      g.running := true;
      villages := villages + [g];
    }

    /**
     * `_process_key`: a quit key stops this game and every village; a key
     * that selects `d` makes village `d - 1` active, or the last one when
     * there are fewer; any other key changes nothing.
     */
    method ProcessKey(key: Key)
      requires Valid()
      modifies this`running, this`active, villages`running
      ensures Valid() && villages == old(villages)
      ensures IsQuit(key) ==> !running && forall g :: g in villages ==> !g.running
      ensures !IsQuit(key) ==> running == old(running) && forall g :: g in villages ==> g.running == old(g.running)
      ensures Selected(key).Some? ==> active == Min(|villages| - 1, Selected(key).value - 1)
      ensures Selected(key).None? ==> active == old(active)
    {
      if key == Code(113) || key == Text("q") {
        running := false;
        for i := 0 to |villages|
          invariant forall j :: 0 <= j < i ==> !villages[j].running
          invariant !running && active == old(active)
        {
          villages[i].running := false;
        }
      }
      match key
      case NoKey =>
      case Code(c) =>
        if c != 0 && 49 <= c <= 57 {
          active := Min(|villages| - 1, c - 49);
        }
      case Text(s) =>
        if s != [] && Occurs(s, DIGITS) {
          BlockOfDigits(s);
          active := Min(|villages| - 1, DecimalValue(s) - 1);
        }
    }
  }

  function Min(a: int, b: int): int
  {
    if a <= b then a else b
  }
}
