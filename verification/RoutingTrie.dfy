/**
  The routing table: a binary trie of bounded buckets over the distance from
  the local identifier.  A full bucket splits when its depth and index allow.
 */
module RoutingTrie {
  import opened NodeId
  import opened Nearest

  const ID_BITS: nat := 8 * ID_SIZE

  datatype Params = Params(bucket: nat, cache: nat, base: nat, b: nat) {
    predicate Valid() {
      bucket > 0 && cache > 0 && b > 0
    }
  }

  datatype Trie = Bucket(contacts: seq<Contact>, cache: seq<Contact>) | Space(m0: Trie, m1: Trie)

  function Dist(local: Key, id: Key): Key {
    Xor(local, id)
  }

  /** The place, among all nodes of depth `d`, of the node a distance belongs to. */
  function PathIndex(dist: Key, d: nat): nat
    requires d <= ID_BITS
  {
    if d == 0 then 0 else 2 * PathIndex(dist, d - 1) + (if Bit(dist, d - 1) then 1 else 0)
  }

  /** The split rule, apart from the bucket being full. */
  predicate MaySplit(p: Params, d: nat, x: nat)
    requires p.Valid()
  {
    d < ID_BITS - 1 && (d < p.base || x < Pow(2, d % p.b))
  }

  function WithoutId(s: seq<Contact>, id: Key): seq<Contact> {
    if s == [] then [] else if s[0].id == id then s[1..] else [s[0]] + WithoutId(s[1..], id)
  }

  function ById(s: seq<Contact>, id: Key): (c: Contact)
    requires HasId(s, id)
    ensures c in s && c.id == id
  {
    if s[0].id == id then s[0] else ById(s[1..], id)
  }

  /** The contacts on one side of bit `d`. */
  function Side(s: seq<Contact>, local: Key, d: nat, one: bool): seq<Contact>
    requires d < ID_BITS
  {
    if s == [] then []
    else (if Bit(Dist(local, s[0].id), d) == one then [s[0]] else []) + Side(s[1..], local, d, one)
  }

  /** A bucket of depth `d` becomes two; what does not fit of its cache is forgotten. */
  function Split(p: Params, t: Trie, local: Key, d: nat): Trie
    requires t.Bucket? && d < ID_BITS
  {
    var c0, c1 := Side(t.contacts, local, d, false), Side(t.contacts, local, d, true);
    var k0, k1 := Side(t.cache, local, d, false), Side(t.cache, local, d, true);
    Space(Filled(p, c0, k0), Filled(p, c1, k1))
  }

  /** A new bucket with `contacts`, filled up from `cached`. */
  function Filled(p: Params, contacts: seq<Contact>, cached: seq<Contact>): Trie {
    var room := if |contacts| < p.bucket then p.bucket - |contacts| else 0;
    if |cached| <= room then Bucket(contacts + cached, [])
    else
      var rest := cached[room..];
      Bucket(contacts + cached[..room], if |rest| <= p.cache then rest else rest[..p.cache])
  }

  /** Adds `c`, unless its identifier is there already; returns the contact that stands for it. */
  function AddNode(p: Params, t: Trie, local: Key, d: nat, x: nat, c: Contact): (Trie, Contact)
    requires p.Valid() && Depths(t, d)
    decreases ID_BITS - d, 1
  {
    match t
    case Space(m0, m1) => AddBelow(p, m0, m1, local, d, x, c)
    case Bucket(contacts, cache) =>
      if HasId(contacts, c.id) then
        var same := ById(contacts, c.id);
        (Bucket(WithoutId(contacts, c.id) + [same], cache), same)
      else if |contacts| < p.bucket then (Bucket(contacts + [c], cache), c)
      else if MaySplit(p, d, x) then
        var s := Split(p, t, local, d);
        AddBelow(p, s.m0, s.m1, local, d, x, c)
      else if HasId(cache, c.id) then
        var same := ById(cache, c.id);
        (Bucket(contacts, WithoutId(cache, c.id) + [same]), same)
      else if |cache| < p.cache then (Bucket(contacts, cache + [c]), c)
      else (Bucket(contacts, (if cache == [] then [] else cache[1..]) + [c]), c)
  }

  function AddBelow(p: Params, m0: Trie, m1: Trie, local: Key, d: nat, x: nat, c: Contact): (Trie, Contact)
    requires p.Valid() && d < ID_BITS - 1 && Depths(m0, d + 1) && Depths(m1, d + 1)
    decreases ID_BITS - d, 0
  {
    if Bit(Dist(local, c.id), d) then
      var (t, r) := AddNode(p, m1, local, d + 1, 2 * x + 1, c);
      (Space(m0, t), r)
    else
      var (t, r) := AddNode(p, m0, local, d + 1, 2 * x, c);
      (Space(t, m1), r)
  }

  /** Inner nodes lie above the last bit. */
  predicate Depths(t: Trie, d: nat) {
    t.Bucket? || (d < ID_BITS - 1 && Depths(t.m0, d + 1) && Depths(t.m1, d + 1))
  }

  function RemoveNode(t: Trie, local: Key, d: nat, id: Key): (Trie, bool)
    requires Depths(t, d)
  {
    match t
    case Space(m0, m1) =>
      if Bit(Dist(local, id), d) then
        var (u, ok) := RemoveNode(m1, local, d + 1, id);
        (Space(m0, u), ok)
      else
        var (u, ok) := RemoveNode(m0, local, d + 1, id);
        (Space(u, m1), ok)
    case Bucket(contacts, cache) =>
      if HasId(contacts, id) then (Bucket(WithoutId(contacts, id), cache), true)
      else if HasId(cache, id) then (Bucket(contacts, WithoutId(cache, id)), true)
      else (t, false)
  }

  datatype Found = Nobody | Somebody(c: Contact)

  function FindNode(t: Trie, local: Key, d: nat, id: Key): Found
    requires Depths(t, d)
  {
    match t
    case Space(m0, m1) =>
      if Bit(Dist(local, id), d) then FindNode(m1, local, d + 1, id) else FindNode(m0, local, d + 1, id)
    case Bucket(contacts, _) => if HasId(contacts, id) then Somebody(ById(contacts, id)) else Nobody
  }

  /** All contacts, stale or not; cached ones do not count. */
  function All(t: Trie): seq<Contact> {
    match t
    case Space(m0, m1) => All(m0) + All(m1)
    case Bucket(contacts, _) => contacts
  }

  function Live(s: seq<Contact>, stale: set<Contact>): seq<Contact> {
    if s == [] then [] else (if s[0] in stale then [] else [s[0]]) + Live(s[1..], stale)
  }

  function CountContacts(t: Trie): nat {
    match t
    case Space(m0, m1) => CountContacts(m0) + CountContacts(m1)
    case Bucket(contacts, _) => |contacts|
  }

  function GetContacts(t: Trie, stale: set<Contact>): seq<Contact> {
    match t
    case Space(m0, m1) => GetContacts(m0, stale) + GetContacts(m1, stale)
    case Bucket(contacts, _) => Live(contacts, stale)
  }

  // ---------------------------------------------------------------- the closest ones

  /** The first of `res` that is farther from `id` than `c` makes way for it. */
  function Replace(id: Key, res: seq<Contact>, c: Contact): seq<Contact> {
    if res == [] then []
    else if Closer(id, c.id, res[0].id) then [c] + res[1..]
    else [res[0]] + Replace(id, res[1..], c)
  }

  /** What the scan of a bucket collects. */
  function Pick(id: Key, s: seq<Contact>, stale: set<Contact>, qty: nat): seq<Contact> {
    if s == [] then []
    else
      var res, c := Pick(id, s[..|s| - 1], stale, qty), s[|s| - 1];
      if c in stale then res
      else if |res| < qty then res + [c]
      else Replace(id, res, c)
  }

  function FindClosest(t: Trie, local: Key, d: nat, id: Key, stale: set<Contact>, qty: nat): seq<Contact>
    requires Depths(t, d)
  {
    if qty == 0 then []
    else
      match t
      case Space(m0, m1) =>
        var (near, far) := if Bit(Dist(local, id), d) then (m1, m0) else (m0, m1);
        var res := FindClosest(near, local, d + 1, id, stale, qty);
        if |res| < qty then res + FindClosest(far, local, d + 1, id, stale, qty - |res|) else res
      case Bucket(contacts, _) => Pick(id, contacts, stale, qty)
  }
}
