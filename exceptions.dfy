/** The exceptions the user service throws, as values. */
module Exceptions {

  datatype Exception =
    | ArgumentNullException(paramName: string)
    | ArgumentException(message: string, paramName: string)
    | AppException(message: string)
    | InvalidOperationException(message: string)

  const PasswordRequired: string := "Password is required"
  const BlankPassword: string := "Value cannot be empty or whitespace only string."
  const BadHashLength: string := "Invalid length of password hash (64 bytes expected)."
  const BadSaltLength: string := "Invalid length of password salt (128 bytes expected)."
  /** What `SingleOrDefault` throws when more than one row matches. */
  const MoreThanOneMatch: string := "Sequence contains more than one matching element"

  /** The message of the AppException for a name that is already in use. */
  function UsernameTaken(name: string): string
  {
    "Username \"" + name + "\" is already taken"
  }
}
