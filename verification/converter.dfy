/** Mappings from persisted rows to API responses. */
module Converter {
  import opened Entity
  import opened Model

  /** The public profile of a user: identity and timestamps copied, the token
      left empty, and no trace of the password digest. */
  function UserToResponse(u: User): (r: UserResponse)
    ensures r.id == u.id && r.name == u.name && r.email == u.email
    ensures r.token == ""
    ensures r.createdAt == u.createdAt && r.updatedAt == u.updatedAt
  {
    UserResponse(u.id, u.name, u.email, "", u.createdAt, u.updatedAt)
  }

  /** The profile does not depend on the stored password digest or token. */
  lemma UserToResponseHidesSecrets(u: User, password: string, token: string)
    ensures UserToResponse(u.(password := password, token := token)) == UserToResponse(u)
  {
  }

  /** The login response: the user's profile plus the first two tokens as the
      access and refresh token. Go indexes `token[1]`, so fewer than two tokens
      panic; that is this function's precondition. */
  function UserToLoginResponse(u: User, expiresIn: int, tokens: seq<string>): (r: LoginUserResponse)
    requires |tokens| >= 2
    ensures r.user == UserToResponse(u)
    ensures r.tokens.accessToken == tokens[0] && r.tokens.refreshToken == tokens[1]
    ensures r.tokens.expiresIn == expiresIn
  {
    LoginUserResponse(UserToResponse(u), BackendTokens(tokens[0], tokens[1], expiresIn))
  }

  function BookToResponse(b: Book): (r: BookResponse)
    ensures r.id == b.id && r.title == b.title && r.authorId == b.authorId
  {
    BookResponse(b.id, b.title, b.authorId)
  }

  /** Converts every book, in order, appending one response per book. */
  method BooksToResponse(books: seq<Book>) returns (r: seq<BookResponse>)
    ensures |r| == |books|
    ensures forall i :: 0 <= i < |books| ==> r[i] == BookToResponse(books[i])
  {
    r := [];
    var i := 0;
    while i < |books|
      invariant 0 <= i <= |books|
      invariant |r| == i
      invariant forall j :: 0 <= j < i ==> r[j] == BookToResponse(books[j])
    {
      r := r + [BookToResponse(books[i])];
      i := i + 1;
    }
  }
}
