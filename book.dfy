/** The catalogue entry. `Book.java` is not part of this model; its fields are the ones the
    registry and the console read: title, author, ISBN, genre and the availability flag. */
module Books {

  /** International Standard Book Number, the registry's key for a book. */
  type Isbn = string

  datatype Book = Book(title: string, author: string, isbn: Isbn, genre: string, available: bool)

  /** `new Book(title, author, isbn, genre)`: a new book is on the shelf. */
  function NewBook(title: string, author: string, isbn: Isbn, genre: string): (b: Book)
    ensures b.title == title && b.author == author && b.isbn == isbn && b.genre == genre
    ensures b.available
  {
    Book(title, author, isbn, genre, true)
  }
}
