/**
 * An uploaded file (`MultipartFile`) as the upload validators see it, the size limits they
 * apply, and the reasons they give when they refuse a file. A null file is `None`.
 */
module MultipartFiles {
  import opened Common

  /** The parts of a `MultipartFile` the services read; `size` is in bytes. */
  datatype MultipartFile = MultipartFile(contentType: Option<string>, originalFilename: Option<string>, size: nat)
  {
    /** `isEmpty`: the file has no content. */
    predicate IsEmpty()
    {
      size == 0
    }
  }

  const MIB: nat := 1024 * 1024
  /** The smallest file the image and PDF validators accept: 1 KB. */
  const MIN_FILE_SIZE: nat := 1024
  /** The largest image: 10 MB. */
  const MAX_IMAGE_SIZE: nat := 10 * MIB
  /** The largest PDF: 50 MB. */
  const MAX_PDF_SIZE: nat := 50 * MIB
  const PDF_CONTENT_TYPE: string := "application/pdf"
  const IMAGE_CONTENT_TYPE_PREFIX: string := "image/"

  /** Why a file was refused; `StorageFailed` is a failure of the storage service itself. */
  datatype Reason = EmptyFile | NotAnImage | UnsupportedFormat | NotAPdf | NoPdfExtension | TooLarge | TooSmall | StorageFailed

  /** The exception thrown, and the check that threw it. */
  datatype Rejection = Rejection(exception: Exception, reason: Reason)

  /** `file != null && !file.isEmpty()`. */
  predicate Present(file: Option<MultipartFile>)
  {
    file.Some? && !file.value.IsEmpty()
  }

  /** The name ends in `.pdf`, ignoring case. */
  predicate HasPdfExtension(name: string)
  {
    EndsWith(ToLower(name), ".pdf")
  }

  /**
   * A PDF both PDF validators accept: present, of content type `application/pdf`, named
   * `*.pdf` in any case, and from 1 KB to 50 MB.
   */
  predicate AcceptablePdf(file: Option<MultipartFile>)
  {
    && Present(file)
    && file.value.contentType == Some(PDF_CONTENT_TYPE)
    && file.value.originalFilename.Some? && HasPdfExtension(file.value.originalFilename.value)
    && MIN_FILE_SIZE <= file.value.size <= MAX_PDF_SIZE
  }
}
