/** The remote data the engine reads: dates, a row's schema and property
    values, and the tree of blocks that makes up a page. Values computed by
    the foreign client library (the markdown form of a rich-text title, the
    base name of an image source, `str(block)`) are carried as opaque strings. */
module Notion {
  import opened Python

  /** A calendar date; `start` of a Notion date property. */
  datatype Date = Date(year: nat, month: nat, day: nat)

  /** The range of Python's `datetime.date`. */
  predicate ValidDate(d: Date)
  {
    1 <= d.year <= 9999 && 1 <= d.month <= 12 && 1 <= d.day <= 31
  }

  /** Python's `a < b` on dates: lexicographic on (year, month, day). */
  predicate Before(a: Date, b: Date)
  {
    a.year < b.year
    || (a.year == b.year && a.month < b.month)
    || (a.year == b.year && a.month == b.month && a.day < b.day)
  }

  /** One property definition of a collection: its `id`, `name` and `type`. */
  datatype SchemaEntry = SchemaEntry(id: string, name: string, propType: string)

  /** A property value as the client library returns it. */
  datatype Value =
    | NoValue                      // None: the property is unset
    | DateValue(start: Date)       // a date property
    | TextValue(text: string)      // a select or text property
    | ListValue(items: seq<string>) // a multi_select property

  /** A collection row (`CollectionRowBlock`): its stable id, title, optional
      icon, the id of the collection it belongs to, the collection's schema,
      its property values by property id, and its page content. */
  datatype Row = Row(
    id: string,
    title: string,
    icon: Option<string>,
    collectionId: string,
    schema: seq<SchemaEntry>,
    props: map<string, Value>,
    children: seq<Block>)

  /** One node of a page, one constructor per block class the renderer
      distinguishes, plus Unknown for every other kind. Each constructor
      stands for exactly that class, never for a subclass of it, so the
      newer engine's `isinstance` tests and the older engine's `type(block) is`
      tests pick the same constructor. */
  datatype Block =
    | CollectionRow(row: Row)
    | Text(title: string)
    | Header(title: string)
    | Subheader(title: string)
    | SubSubHeader(markdownTitle: string)          // notion_to_markdown of the title
    | BulletedList(title: string, children: seq<Block>)
    | NumberedList(title: string, children: seq<Block>)
    | ColumnList(children: seq<Block>)
    | Column(columnRatio: string, children: seq<Block>)
    | Image(source: string, sourceBasename: string) // basename of notion_to_markdown(source)
    | Code(language: string, title: string)
    | Quote(title: string)
    | Todo(checked: bool, title: string, children: seq<Block>)
    | Divider(repr: string)                         // str(block)
    | CollectionView
    | Unknown(repr: string)                         // str(block)

  /** `row.get_property(id)`: an unset property reads as None. */
  function Prop(row: Row, id: string): Value
  {
    if id in row.props then row.props[id] else NoValue
  }
}
