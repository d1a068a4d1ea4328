/** What a request handler sends back: the HTTP status code together with
    either the payload of a successful response (`status: true` in the JSON
    body) or the kind of error it reports (`status: false`). */
module Http {

  datatype ErrorKind =
    // task handlers
    | MissingDescription   // "Description of task not found"
    | DuplicateTask        // "Task with this description already exists."
    | InvalidStatus        // "Invalid status value."
    | NothingToUpdate      // "Nothing to update."
    | NotFound             // "Task not found", "No task found.", "Task with given ID not found"
    | Forbidden            // "Unauthorized" (403)
    | NotDeletable         // "Task is neither completed nor past due; not deleted."
    // signup and login
    | MissingFields        // "Please fill all the fields", "Please enter all details!!"
    | NotStrings           // "Please send string values only, ..."
    | ShortPassword        // "Password length must be at least 4 characters"
    | InvalidEmail         // "Invalid Email"
    | EmailTaken           // "This email is already registered, ..."
    | MissingPassword      // " Please enter a valid password" (sent with code 200)
    | UnknownEmail         // "This email is not registered!!"
    | WrongPassword        // "Password incorrect!!"
    // authentication middleware
    | TokenMissing         // "Token not found or malformed"
    | InvalidToken         // "Invalid token"
    | UserNotFound         // "User not found"
    // any exception caught by a handler's catch block
    | InternalError        // "Internal Server Error", "Server error"

  datatype Reply<T> =
    | Done(code: int, value: T)
    | Refused(code: int, kind: ErrorKind)
}
