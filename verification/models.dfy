/** The three document shapes of the store (the Folder, Tag and Asset
    schemas), their defaults, and the checks the schemas make when a document
    is saved.

    Document and user ids are natural numbers; timestamps other than an
    asset's creation time are not modelled.
 */
module Models {
  import opened Outcomes
  import opened Text

  type FolderId = nat
  type TagId = nat
  type AssetId = nat
  type UserId = nat

  const DefaultFolderColor: string := "#3B82F6"
  const DefaultTagColor: string := "#9CA3AF"

  /** A folder; `parentFolder` is `None` for a folder at the root. */
  datatype Folder = Folder(
    name: string,
    description: string,
    parentFolder: Option<FolderId>,
    createdBy: UserId,
    color: string,
    isPublic: bool)

  /** A tag; its name is stored trimmed and lower-cased. */
  datatype Tag = Tag(name: string, color: string, createdBy: UserId)

  /** The classification an asset's `fileType` must take. */
  datatype FileType = Image | Pdf | Video | Document | Spreadsheet | Presentation | Other

  /** The string the schema stores for each file type. */
  function FileTypeName(t: FileType): string {
    match t
    case Image => "image"
    case Pdf => "pdf"
    case Video => "video"
    case Document => "document"
    case Spreadsheet => "spreadsheet"
    case Presentation => "presentation"
    case Other => "other"
  }

  /** The file type a request string names, if it is one of the enumeration. */
  function ParseFileType(s: string): Option<FileType> {
    if s == "image" then Some(Image)
    else if s == "pdf" then Some(Pdf)
    else if s == "video" then Some(Video)
    else if s == "document" then Some(Document)
    else if s == "spreadsheet" then Some(Spreadsheet)
    else if s == "presentation" then Some(Presentation)
    else if s == "other" then Some(Other)
    else None
  }

  /** A string is accepted as a file type exactly when it is the stored name of
      that type: parsing and naming are inverse. */
  lemma FileTypeRoundTrip(s: string, t: FileType)
    ensures ParseFileType(s) == Some(t) <==> s == FileTypeName(t)
    ensures ParseFileType(FileTypeName(t)) == Some(t)
  {
  }

  /** An asset. `tags` is a list: the schema does not forbid repeated ids. */
  datatype Asset = Asset(
    name: string,
    description: string,
    fileUrl: string,
    fileType: FileType,
    fileSize: int,
    mimeType: string,
    folder: Option<FolderId>,
    tags: seq<TagId>,
    uploadedBy: UserId,
    thumbnail: Option<string>,
    downloads: nat,
    views: nat,
    isPublic: bool,
    createdAt: nat)

  /** The `required` validators the Folder schema runs on save; the name has
      already been trimmed by its setter. */
  predicate FolderSaves(f: Folder) {
    f.name != ""
  }

  /** The `required` validator of the Tag schema's name. */
  predicate TagSaves(t: Tag) {
    t.name != ""
  }

  /** The `required` validators of the Asset schema's string fields. */
  predicate AssetSaves(a: Asset) {
    a.name != "" && a.fileUrl != "" && a.mimeType != ""
  }

  /** A folder document as the schema builds it from the values a handler
      passes: the name is trimmed, missing fields take their defaults. */
  function NewFolder(name: string, description: Option<string>, parentFolder: Option<FolderId>,
                     color: Option<string>, createdBy: UserId, isPublic: Option<bool>): (f: Folder)
    ensures f.name == Trim(name) && IsTrimmed(f.name)
    ensures description.None? ==> f.description == ""
    ensures description.Some? ==> f.description == description.value
    ensures f.parentFolder == parentFolder
    ensures color.None? ==> f.color == DefaultFolderColor
    ensures color.Some? ==> f.color == color.value
    ensures isPublic.None? ==> f.isPublic
    ensures isPublic.Some? ==> f.isPublic == isPublic.value
    ensures f.createdBy == createdBy
  {
    Folder(Trim(name), description.GetOr(""), parentFolder, createdBy,
           color.GetOr(DefaultFolderColor), isPublic.GetOr(true))
  }

  /** A tag document as the schema builds it: the name is trimmed and
      lower-cased, the colour defaults. */
  function NewTag(name: string, color: Option<string>, createdBy: UserId): (t: Tag)
    ensures t.name == Normalize(name) && IsNormalized(t.name)
    ensures color.None? ==> t.color == DefaultTagColor
    ensures color.Some? ==> t.color == color.value
    ensures t.createdBy == createdBy
  {
    NormalizeIsNormalized(name);
    Tag(Normalize(name), color.GetOr(DefaultTagColor), createdBy)
  }
}
