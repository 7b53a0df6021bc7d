/** Definitions that several parts of the model share. */
module Common {

  datatype Option<T> = None | Some(value: T)

  /** How the machine goes down. */
  datatype ShutdownKind = Poweroff | Reboot | Halt

  function Min(a: nat, b: nat): nat { if a < b then a else b }

  ghost predicate Distinct<T>(s: seq<T>) {
    forall i, j :: 0 <= i < j < |s| ==> s[i] != s[j]
  }

  function Reversed<T>(s: seq<T>): seq<T> {
    seq(|s|, i requires 0 <= i < |s| => s[|s| - 1 - i])
  }
}
