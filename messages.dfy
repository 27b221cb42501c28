/**
 * Rows of the message store's join query (one per message and attachment)
 * and the logical messages the parser builds from them.
 */
module Messages {
  import opened Wrappers
  import opened TimeCodec
  import opened Text

  /**
   * One row of the join query. `id` is the message's row id, the key the
   * parser groups by; `time` is the stored (possibly packed) timestamp;
   * `phoneNumber`, `mimeType` and `filename` come from left joins and may be
   * null; `fromMe` is the integer flag column.
   */
  datatype RawRow = RawRow(
    id: int,
    time: int,
    phoneNumber: Option<string>,
    messageId: string,
    message: Option<string>,
    mimeType: Option<string>,
    filename: Option<string>,
    fromMe: int)

  /** A non-image attachment: its path and the row's MIME type */
  datatype Attachment = Attachment(path: string, mimeType: Option<string>)

  /**
   * A logical message. `time` is a Unix date in milliseconds (None for the
   * zero sentinel); the two attachment lists are absent until a row creates them.
   */
  datatype Message = Message(
    id: int,
    time: Option<int>,
    phoneNumber: Option<string>,
    messageId: string,
    message: string,
    fromMe: bool,
    imageAttachmentUrl: Option<seq<string>>,
    attachment: Option<seq<Attachment>>)

  /** The directory prefix cut from an attachment's file name */
  const AttachmentsDir: string := "~/Library/Messages/Attachments"

  /** The MIME types treated as images, in the source's order and with its repeated entry */
  const ImageMimeTypes: seq<string> := [
    "image/bmp",
    "image/cis-cod",
    "image/gif",
    "image/ief",
    "image/png",
    "image/jpeg",
    "image/pipeg",
    "image/svg+xml",
    "image/tiff",
    "image/tiff",
    "image/x-cmu-raster",
    "image/x-cmx",
    "image/x-icon",
    "image/x-portable-anymap",
    "image/x-portable-bitmap",
    "image/x-portable-graymap",
    "image/x-portable-pixmap",
    "image/x-rgb",
    "image/x-xbitmap",
    "image/x-xpixmap",
    "image/x-xwindowdump"
  ]

  /** A MIME type is an image type when it is one of the listed entries (not when it merely starts with "image/") */
  predicate IsImage(mimeType: Option<string>) {
    mimeType.Some? && mimeType.value in ImageMimeTypes
  }

  /** The row carries an attachment: its file name is present and non-empty */
  predicate HasFile(row: RawRow) {
    row.filename.Some? && row.filename.value != ""
  }

  /** The attachment's path with the first occurrence of the attachments directory cut out */
  function AttachmentPath(row: RawRow): (path: string)
    requires HasFile(row)
    ensures path == RemoveFirst(row.filename.value, AttachmentsDir)
    ensures forall t :: row.filename.value == AttachmentsDir + t ==> path == t
  {
    forall t | row.filename.value == AttachmentsDir + t {
      RemoveLeadingPrefix(AttachmentsDir, t);
    }
    RemoveFirst(row.filename.value, AttachmentsDir)
  }

  /**
   * The message a row starts: its time converted to a Unix date, its text
   * stripped of placeholders (empty when absent), `fromMe` made a boolean,
   * and no attachment lists yet.
   */
  function Normalize(row: RawRow): (m: Message)
    ensures m.id == row.id && m.messageId == row.messageId && m.phoneNumber == row.phoneNumber
    ensures m.time == FromAppleTime(row.time)
    ensures ObjectReplacement !in m.message
    ensures row.message.Some? ==> m.message == StripObjectReplacement(row.message.value)
    ensures row.message.None? ==> m.message == ""
    ensures m.fromMe <==> row.fromMe != 0
    ensures m.imageAttachmentUrl.None? && m.attachment.None?
  {
    Message(
      row.id,
      FromAppleTime(row.time),
      row.phoneNumber,
      row.messageId,
      StripObjectReplacement(row.message.GetOr("")),
      row.fromMe != 0,
      None,
      None)
  }

  /**
   * Adds the attachment of `row` (if it has one) to `m`: an image path to the
   * image list, anything else with its MIME type to the attachment list. The
   * image list is created for every attachment, the attachment list only for
   * a non-image one.
   */
  function AddAttachment(m: Message, row: RawRow): (m': Message)
    ensures m'.(imageAttachmentUrl := m.imageAttachmentUrl, attachment := m.attachment) == m
    ensures !HasFile(row) ==> m' == m
    ensures HasFile(row) ==> m'.imageAttachmentUrl.Some?
    ensures IsImage(row.mimeType) ==> m'.attachment == m.attachment
  {
    if !HasFile(row) then m
    else
      var path := AttachmentPath(row);
      var images := m.imageAttachmentUrl.GetOr([]);
      if IsImage(row.mimeType) then
        m.(imageAttachmentUrl := Some(images + [path]))
      else
        m.(imageAttachmentUrl := Some(images),
           attachment := Some(m.attachment.GetOr([]) + [Attachment(path, row.mimeType)]))
  }

  /** Every listed image type is an `image/` type */
  lemma ImageTypesAreImages()
    ensures forall e :: e in ImageMimeTypes ==> |e| >= 6 && e[..6] == "image/"
  {
  }

  /** So no type outside `image/` counts as an image */
  lemma NonImageType(t: string)
    requires |t| < 6 || t[..6] != "image/"
    ensures !IsImage(Some(t))
  {
    ImageTypesAreImages();
  }

  /** Membership, not a prefix test: HEIC photos and other unlisted image types are generic attachments */
  lemma UnlistedImageTypes()
    ensures !IsImage(Some("image/heic")) && !IsImage(Some("image/webp"))
    ensures IsImage(Some("image/png")) && !IsImage(None)
  {
  }
}
