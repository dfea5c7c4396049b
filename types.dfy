/** The dashboard's entities: a change log entry and a product with its changes. */
module Types {

  /** The six kinds of change; `TypeName` gives each one's display string. */
  datatype ChangeType = GA | Preview | BugFix | Feature | Deprecated | Security

  function TypeName(t: ChangeType): string {
    match t
    case GA => "General Availability"
    case Preview => "Preview"
    case BugFix => "Bug Fix"
    case Feature => "New Feature"
    case Deprecated => "Deprecation"
    case Security => "Security Bulletin"
  }

  /** One dated event; `date` is the ISO-8601 text as stored. */
  datatype Change = Change(id: string, date: string, kind: ChangeType, description: string, url: string)

  /** A product; `icon` is the display token (an emoji or an image path). */
  datatype Product = Product(id: string, name: string, icon: string, changes: seq<Change>, url: string)

  datatype SortOption = Recent | Alphabetical
}
