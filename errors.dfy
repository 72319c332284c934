/** The error values the model functions hand back to their callers. */
module ModelErrors {

  /** NewGameError: which field of a new-game request is at fault. */
  datatype NewGameError =
    | LabelError(labelMessage: string)
    | PlayersError(playersMessage: string)

  /** UserError: which field of an account request is at fault. */
  datatype UserError =
    | DisplayNameError(displayNameMessage: string)
    | PasswordError(passwordMessage: string)

  /** Errors as a model function returns it: an application message or a new-game error. */
  datatype Errors =
    | App(message: string)
    | NewGame(newGame: NewGameError)
}
