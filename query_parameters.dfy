/** The paging and sorting parameters every list endpoint accepts. */
module Query {
  import opened Wrappers

  /** The C# `int`: 32-bit two's complement. */
  newtype int32 = x: int | -0x8000_0000 <= x < 0x8000_0000

  /** Unchecked two's-complement wrap-around of a mathematical result. */
  function Wrap32(x: int): (r: int32)
    ensures -0x8000_0000 <= x < 0x8000_0000 ==> r as int == x
    ensures (r as int - x) % 0x1_0000_0000 == 0
  {
    ((x + 0x8000_0000) % 0x1_0000_0000 - 0x8000_0000) as int32
  }

  const MaxPageSize: int32 := 50
  const DefaultPageSize: int32 := 10
  const DefaultPage: int32 := 1

  datatype SortOrder = Asc | Desc
  datatype ExportFormat = Json | Csv | Pdf

  /** What the `PageSize` setter stores for `value`. */
  function ClampPageSize(value: int32): (r: int32)
    ensures r <= MaxPageSize
    ensures value <= MaxPageSize ==> r == value
    ensures value > MaxPageSize ==> r == MaxPageSize
  {
    if value > MaxPageSize then MaxPageSize else value
  }

  /** Clamping twice is clamping once, and a stored page size is a fixed
      point of the clamp. */
  lemma ClampIdempotent(value: int32)
    ensures ClampPageSize(ClampPageSize(value)) == ClampPageSize(value)
  {
  }

  /** `QueryParameters<T>`: `S` is the endpoint's sort-key enumeration.
      `SortBy` is declared `T?` under `where T : Enum`, which does not make
      it nullable, so an unset key is `default(T)`, the value numbered 0;
      `None` is a value no member names. */
  class QueryParameters<S> {
    var page: int32
    /** The backing field `_pageSize`. */
    var pageSize: int32
    var sortBy: Option<S>
    var sortOrder: SortOrder
    var format: ExportFormat

    ghost predicate Valid()
      reads this
    {
      pageSize <= MaxPageSize
    }

    /** `zero` is `default(T)` of the endpoint's enumeration, such as
        `Catalog.UnsetShowSortBy`. */
    constructor (zero: Option<S>)
      ensures Valid()
      ensures page == DefaultPage && pageSize == DefaultPageSize
      ensures sortBy == zero && sortOrder == Asc && format == Json
    {
      page := DefaultPage;
      pageSize := DefaultPageSize;
      sortBy := zero;
      sortOrder := Asc;
      format := Json;
    }

    /** The `PageSize` setter: values above 50 are stored as 50; there is
        no lower bound. */
    method SetPageSize(value: int32)
      modifies this`pageSize
      ensures Valid()
      ensures pageSize == ClampPageSize(value)
    {
      pageSize := if value > MaxPageSize then MaxPageSize else value;
    }

    method SetPage(value: int32)
      requires Valid()
      modifies this`page
      ensures Valid() && page == value
    {
      page := value;
    }
  }
}
