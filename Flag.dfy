/**
 * `Flag`: the two runtime switches of Exom and `Toggle`, which flips one
 * of them by its exact short or long name.
 */
module Flag {
  import opened Wrappers
  import opened Jvm

  /** The values of the two switches. */
  datatype Settings = Settings(minimal: bool, noChronometer: bool)

  /** The message of the `InvalidFlagException` that `Toggle` throws. */
  function InvalidFlagMessage(flag: string): string
  {
    "'" + flag + "' is not a valid flag."
  }

  /**
   * What `Toggle(flag)` does to the switches `s`, and the exception it
   * throws if any. The first character is read before anything else, so
   * the empty string fails with an index error.
   */
  function Toggled(s: Settings, flag: string): (Settings, Option<Thrown>)
  {
    if flag == [] then (s, Some(Raise(StringIndexOutOfBounds, IndexMessage(0))))
    else if flag[0] != '-' then (s, Some(Raise(InvalidFlag, InvalidFlagMessage(flag))))
    else if flag == "-m" || flag == "--minimal" then (s.(minimal := !s.minimal), None)
    else if flag == "-c" || flag == "--no-chronometer" then (s.(noChronometer := !s.noChronometer), None)
    else (s, Some(Raise(InvalidFlag, InvalidFlagMessage(flag))))
  }

  /** The static fields `Minimal` and `NoChronometer`. */
  class Flags {
    var minimal: bool
    var noChronometer: bool

    function State(): Settings
      reads this
    {
      Settings(minimal, noChronometer)
    }

    /** Both switches start off. */
    constructor()
      ensures State() == Settings(false, false)
    {
      minimal, noChronometer := false, false;
    }

    /** `Toggle`: flips the named switch, or throws and changes nothing. */
    method Toggle(flag: string) returns (thrown: Option<Thrown>)
      modifies this
      ensures (State(), thrown) == Toggled(old(State()), flag)
    {
      if flag == [] {
        return Some(Raise(StringIndexOutOfBounds, IndexMessage(0)));
      }
      if flag[0] != '-' {
        return Some(Raise(InvalidFlag, InvalidFlagMessage(flag)));
      }
      if flag == "-m" || flag == "--minimal" {
        minimal := !minimal;
      } else if flag == "-c" || flag == "--no-chronometer" {
        noChronometer := !noChronometer;
      } else {
        return Some(Raise(InvalidFlag, InvalidFlagMessage(flag)));
      }
      return None;
    }
  }

  /** A flag that is not accepted leaves both switches as they were; one that is accepted flips exactly one. */
  lemma ToggleEffect(s: Settings, flag: string)
    ensures var (t, e) := Toggled(s, flag);
      (e.Some? ==> t == s)
      && (e.None? <==> flag in {"-m", "--minimal", "-c", "--no-chronometer"})
      && (flag in {"-m", "--minimal"} ==> t == Settings(!s.minimal, s.noChronometer))
      && (flag in {"-c", "--no-chronometer"} ==> t == Settings(s.minimal, !s.noChronometer))
  {
  }

  /** A flag not starting with `-` is refused as invalid. */
  lemma NoDashRefused(s: Settings, flag: string)
    requires flag != [] && flag[0] != '-'
    ensures Toggled(s, flag) == (s, Some(Thrown(InvalidFlag, Some("'" + flag + "' is not a valid flag."))))
  {
  }

  /** Toggling the same accepted flag twice restores the switches. */
  lemma ToggleTwice(s: Settings, flag: string)
    requires Toggled(s, flag).1.None?
    ensures Toggled(Toggled(s, flag).0, flag) == (s, None)
  {
  }

  /** Matching is exact: the upper-case spelling `-M` is refused. */
  lemma CaseSensitive(s: Settings)
    ensures Toggled(s, "-M").1 == Some(Raise(InvalidFlag, "'-M' is not a valid flag."))
  {
    assert "-M"[1] != "-m"[1] && "-M"[1] != "-c"[1];
    assert InvalidFlagMessage("-M") == "'-M' is not a valid flag.";
  }
}
