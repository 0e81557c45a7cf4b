/** The persisted rows: users and books. Timestamps are Unix seconds. */
module Entity {

  /** A row of the `users` table. `password` holds the bcrypt digest, never
      the plaintext; `token` is the last access token issued at login. */
  datatype User = User(
    id: string,
    password: string,
    email: string,
    name: string,
    token: string,
    createdAt: int,
    updatedAt: int)

  /** A row of the `books` table. */
  datatype Book = Book(id: string, title: string, authorId: string)
}
