/** The structured response every handler returns: a status kind, the HTTP
    status code, an optional message and optional data. */
module Responses {
  import opened Books

  datatype Status = Success | Fail | Error

  datatype Data =
    | NoData
    | Created(bookId: BookId)
    | BookList(summaries: seq<Summary>)
    | OneBook(book: Book)

  datatype Response = Response(status: Status, code: int, message: Option<string>, data: Data)

  const AddPageRangeMessage := "Gagal menambahkan buku. readPage tidak boleh lebih besar dari pageCount"
  const AddMissingNameMessage := "Gagal menambahkan buku. Mohon isi nama buku"
  const AddedMessage := "Buku berhasil ditambahkan"
  const AddFailedMessage := "Buku gagal ditambahkan"
  const NotFoundMessage := "Buku tidak ditemukan"
  const EditPageRangeMessage := "Gagal memperbarui buku. readPage tidak boleh lebih besar dari pageCount"
  const EditMissingNameMessage := "Gagal memperbarui buku. Mohon isi nama buku"
  const EditNotFoundMessage := "Gagal memperbarui buku. Id tidak ditemukan"
  const EditedMessage := "Buku berhasil diperbarui"
  const DeleteNotFoundMessage := "Buku gagal dihapus. Id tidak ditemukan"
  const DeletedMessage := "Buku berhasil dihapus"

  /** A 4xx answer with status `fail` and no data. */
  function Failed(code: int, message: string): Response
  {
    Response(Fail, code, Some(message), NoData)
  }
}
