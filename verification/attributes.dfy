/** Attribute values and collections: Attr, VAttr, List, VTable and Catalog. */
module Attributes {

  const MAX_UINT32: nat := 0xFFFF_FFFF

  type Revision = r: nat | r <= MAX_UINT32

  // Go's uint32 increment, which wraps at the top of the range.
  function Inc32(n: Revision): (m: Revision)
    ensures n < MAX_UINT32 ==> m == n + 1
    ensures n == MAX_UINT32 ==> m == 0
  {
    if n == MAX_UINT32 then 0 else n + 1
  }

  datatype Option<+T> = None | Some(value: T)

  datatype Result<+T, +E> = Ok(value: T) | Err(error: E)

  // The errors of the rinq package; each one that carries a session ref keeps
  // the revision of that ref. Other stands for transport and context errors.
  datatype Error =
    | NotFound
    | StaleUpdate(rev: Revision)
    | FrozenAttributes(rev: Revision)
    | StaleFetch(rev: Revision)
    | FromTheFuture
    | Other

  datatype Attr = Attr(key: string, value: string, isFrozen: bool)

  datatype VAttr = VAttr(attr: Attr, createdAt: Revision, updatedAt: Revision)

  type Table = map<string, VAttr>

  type Catalog = map<string, Table>

  // A diff records the attributes one write changed, in the order it changed them.
  datatype Diff = Diff(ns: string, rev: Revision, attrs: seq<VAttr>)

  // An attribute that was never created reads as this one.
  function EmptyAttr(key: string): Attr {
    Attr(key, "", false)
  }

  // Indexing a Go map of maps: a missing namespace is a nil, hence empty, table.
  function TableIn(c: Catalog, ns: string): Table {
    if ns in c then c[ns] else map[]
  }

  function AttrIn(t: Table, key: string): Attr {
    if key in t then t[key].attr else EmptyAttr(key)
  }

  function AttrAt(c: Catalog, ns: string, key: string): Attr {
    AttrIn(TableIn(c, ns), key)
  }

  // Every attribute is stored under its own key.
  ghost predicate Keyed(t: Table) {
    forall k | k in t :: t[k].attr.key == k
  }

  ghost predicate CatalogKeyed(c: Catalog) {
    forall ns | ns in c :: Keyed(c[ns])
  }

  ghost predicate DistinctKeys(attrs: seq<Attr>) {
    forall i, j | 0 <= i < j < |attrs| :: attrs[i].key != attrs[j].key
  }
}
