/** Watching a note's balance after a paid submit: a read outage is never reported as a
    missing effect. */
module GasEffect {
  import opened Wrappers

  /** One read of the account: it fails, finds no account, or shows a balance. */
  datatype Read = Failed | Absent | Balance(shell: nat)

  datatype Effect = Funded | ConfirmedShort(shell: nat) | Unobserved

  function ReadToTerminal(read: Read): Option<nat> {
    match read
    case Failed => None
    case Absent => Some(0)
    case Balance(shell) => Some(shell)
  }

  function ClassifyGasEffect(terminal: Option<nat>): Effect {
    match terminal
    case Some(shell) => ConfirmedShort(shell)
    case None => Unobserved
  }

  predicate Reaches(read: Read, minShell: nat) {
    read.Balance? && read.shell >= minShell
  }

  /** The balance a successful read stands for. */
  predicate Settles(read: Read, shell: nat) {
    read == Balance(shell) || (read.Absent? && shell == 0)
  }

  /** `answers` is what the account answers up to and including the first read that ends past
      the deadline; there is always one. The reads `used` are those that were made. */
  method ObserveShellEffect(answers: seq<Read>, minShell: nat) returns (effect: Effect, used: nat)
    requires answers != []
    ensures 1 <= used <= |answers|
    ensures effect == Funded <==> exists i :: 0 <= i < |answers| && Reaches(answers[i], minShell)
    ensures effect == Funded ==> Reaches(answers[used - 1], minShell)
                                 && forall i :: 0 <= i < used - 1 ==> !Reaches(answers[i], minShell)
    ensures effect != Funded ==> used == |answers|
    ensures forall shell :: effect == ConfirmedShort(shell)
                            <==> effect != Funded && Settles(answers[|answers| - 1], shell)
    ensures effect == Unobserved <==> effect != Funded && answers[|answers| - 1].Failed?
    ensures minShell > 0 && effect.ConfirmedShort? ==> effect.shell < minShell
  {
    used := 0;
    while true
      invariant used < |answers|
      invariant forall i :: 0 <= i < used ==> !Reaches(answers[i], minShell)
      decreases |answers| - used
    {
      var read := answers[used];
      used := used + 1;
      if read.Balance? && read.shell >= minShell {
        return Funded, used;
      }
      if used == |answers| {
        return ClassifyGasEffect(ReadToTerminal(read)), used;
      }
    }
  }
}
