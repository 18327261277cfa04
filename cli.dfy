/** The command vocabulary of the branch pruner: the four actions a user can
    choose for a branch, the error kinds that abort a run, and the decoding of
    one typed character into an action. */
module Cli {

  /** What the user decided for one branch. */
  datatype Action = Keep | Delete | Quit | Undo

  /** The error kinds of a run. The first four wrap failures of the terminal
      library, of standard I/O, of the repository library and of UTF-8
      decoding; their payloads are not modelled. */
  datatype CliError =
    | Crossterm
    | Io
    | Git
    | FromUtf8
    | InvalidInput(c: char)

  /** The program's result type: a value or the error that aborts the run. */
  datatype Result<+T> = Ok(value: T) | Err(error: CliError)

  /** The key that selects each action, as listed in the help block. */
  function Key(a: Action): (c: char)
    ensures c in "kdqu"
  {
    match a
    case Keep => 'k'
    case Delete => 'd'
    case Quit => 'q'
    case Undo => 'u'
  }

  /** Decodes one typed character. Exactly the four keys are actions; any
      other character, '?' included, is an InvalidInput error carrying that
      same character. */
  function TryFrom(c: char): (r: Result<Action>)
    ensures r.Ok? <==> c in "kdqu"
    ensures r.Ok? ==> Key(r.value) == c
    ensures r.Err? ==> r.error == InvalidInput(c)
  {
    match c
    case 'k' => Ok(Keep)
    case 'd' => Ok(Delete)
    case 'q' => Ok(Quit)
    case 'u' => Ok(Undo)
    case _ => Err(InvalidInput(c))
  }

  /** Decoding inverts Key: the key of every action decodes to that action. */
  lemma TryFromKey(a: Action)
    ensures TryFrom(Key(a)) == Ok(a)
  {
  }
}
