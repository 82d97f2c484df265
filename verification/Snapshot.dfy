/** One immutable filesystem snapshot, and the read-only questions the resolver asks it. */
module Snapshot {
  import opened Common
  import opened PathTypes
  import opened UnixPaths

  /** What the platform reports for the naming rules of a directory. */
  datatype NamingRule = Known(semantics: NamingSemantics) | Unsupported | Unreadable

  datatype MetadataFailure = AccessDenied | UnreadableLink

  /** Directory entries keep their stored spelling and their listing order. */
  datatype Node =
    | File
    | Link(target: Bytes)
    | Opaque(failure: MetadataFailure)
    | Directory(rule: NamingRule, entries: seq<Entry>)

  datatype Entry = Entry(name: Bytes, node: Node)

  /** A snapshot is a tree whose root is a directory. Entries need not have distinct keys:
      a lookup finds the first entry with the key, and a later one is never reached. */
  type Tree = n: Node | n.Directory? witness Directory(Unsupported, [])

  function FailureOf(failure: MetadataFailure): NormalizationError {
    match failure
    case AccessDenied => Inaccessible
    case UnreadableLink => UnresolvedLink
  }

  function RuleOf(rule: NamingRule): Result<NamingSemantics, NormalizationError> {
    match rule
    case Known(semantics) => Ok(semantics)
    case Unsupported => Err(UnsupportedNamingSemantics)
    case Unreadable => Err(Inaccessible)
  }

  /** The first entry whose key is `key`. */
  function Lookup(entries: seq<Entry>, semantics: NamingSemantics, key: Bytes): (r: Option<Entry>)
    ensures r.Some? ==> r.value in entries && NameKey(semantics, r.value.name) == Ok(key)
    ensures r.None? ==> forall e :: e in entries ==> NameKey(semantics, e.name) != Ok(key)
  {
    if entries == [] then None
    else if NameKey(semantics, entries[0].name) == Ok(key) then Some(entries[0])
    else Lookup(entries[1..], semantics, key)
  }

  /** The entry a name denotes in a directory. */
  function Step(node: Node, name: Bytes): Option<Entry> {
    if node.Directory? && node.rule.Known? && NameKey(node.rule.semantics, name).Ok?
    then Lookup(node.entries, node.rule.semantics, NameKey(node.rule.semantics, name).value)
    else None
  }

  /** The node reached by descending through names, without following any link. */
  function Locate(node: Node, names: seq<Bytes>): Option<Node> {
    if names == [] then Some(node)
    else
      match Step(node, names[0])
      case None => None
      case Some(entry) => Locate(entry.node, names[1..])
  }

  lemma {:induction false} LocateConcat(node: Node, a: seq<Bytes>, b: seq<Bytes>)
    ensures Locate(node, a + b) ==
            if Locate(node, a).Some? then Locate(Locate(node, a).value, b) else None
  {
    if a == [] {
      assert a + b == b;
    } else {
      assert (a + b)[0] == a[0] && (a + b)[1..] == a[1..] + b;
      match Step(node, a[0])
      case None =>
      case Some(entry) => LocateConcat(entry.node, a[1..], b);
    }
  }

  // The questions. Each takes native path text, as the resolver does.

  datatype Inspection = Inspection(directory: bool, redirect: Option<Bytes>)

  function InspectNode(node: Node): Result<Inspection, NormalizationError> {
    match node
    case File => Ok(Inspection(false, None))
    case Link(target) => Ok(Inspection(false, Some(target)))
    case Opaque(failure) => Err(FailureOf(failure))
    case Directory(_, _) => Ok(Inspection(true, None))
  }

  /** Metadata of a path whose proper prefixes are directories; no link is followed. */
  function Inspect(tree: Tree, path: Bytes): Result<Inspection, NormalizationError> {
    match Locate(tree, Segments(path))
    case None => Err(MissingTarget)
    case Some(node) => InspectNode(node)
  }

  function Naming(tree: Tree, path: Bytes): Result<NamingSemantics, NormalizationError> {
    match Locate(tree, Segments(path))
    case Some(Directory(rule, _)) => RuleOf(rule)
    case Some(_) => Err(NotDirectory)
    case None => Err(MissingTarget)
  }

  function Listing(tree: Tree, path: Bytes): seq<Entry> {
    match Locate(tree, Segments(path))
    case Some(Directory(_, entries)) => entries
    case _ => []
  }

  /** The stored spelling of a name. Where the directory ignores case, the scan of its entries
      finds the one that the lookup of the name found; elsewhere the name is its own spelling,
      and so is that of its entry. */
  method StoredName(tree: Tree, parent: Bytes, name: Bytes, semantics: NamingSemantics)
    returns (r: Result<Bytes, NormalizationError>)
    ensures NameKey(semantics, name).Ok? ==>
              match Lookup(Listing(tree, parent), semantics, NameKey(semantics, name).value)
              case Some(entry) => r == Ok(entry.name)
              case None => r == if semantics.AsciiInsensitive? then Err(Inaccessible) else Ok(name)
    ensures NameKey(semantics, name).Err? ==> r == Err(NameKey(semantics, name).error)
  {
    var key :- NameKey(semantics, name);
    if !semantics.AsciiInsensitive? {
      return Ok(name);
    }
    var listing := Listing(tree, parent);
    var i := 0;
    while i < |listing|
      invariant 0 <= i <= |listing|
      invariant Lookup(listing, semantics, key) == Lookup(listing[i..], semantics, key)
    {
      var candidate := NameKey(semantics, listing[i].name);
      if candidate == Ok(key) {
        return Ok(listing[i].name);
      }
      i := i + 1;
    }
    return Err(Inaccessible);
  }
}
