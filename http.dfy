/** What a handler sends back: one status code and one body. */
module Http {
  import opened Snippets

  datatype Body =
    | Message(message: string)            // `res.json({ message })` with a fixed text
    | ErrorMessage                        // `res.json({ message: err.message })` for an error a library threw
    | TokenIssued(token: string)          // `res.json({ token })`
    | SnippetList(snippets: seq<Snippet>) // `res.json(snippets)`
    | SnippetRecord(snippet: Snippet)     // `res.json(savedSnippet)`
    | StatusText                          // `res.sendStatus(code)`: the reason phrase of the code

  datatype Response = Response(status: nat, body: Body)

  const PasswordRequired: string := "Password is required"
  const InvalidCredentials: string := "Invalid credentials"
  const EmptySnippetText: string := "Snippet text cannot be empty"
  const SnippetNotFound: string := "Snippet not found"
  const SnippetDeleted: string := "Snippet deleted successfully"
}
