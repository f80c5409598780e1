/** Documents as the router handles them: Python dictionaries from field
    names to the BSON values that occur in announcements. */
module Documents {
  import opened PyStrings
  import opened ObjectIds

  /** The BSON values an announcement holds: `None`, text, and the
      ObjectId in `_id`. */
  datatype Value = Null | Str(text: string) | Oid(id: ObjectId)

  /** The keys the router spells out itself. */
  predicate IsRouterKey(s: string) {
    s == "_id" || s == "id" || s == "message" || s == "start_date" || s == "expiration_date"
    || s == "created_by" || s == "created_at" || s == "updated_by" || s == "updated_at"
  }

  /** Any other key a stored document may carry. */
  type OtherKey = s: string | !IsRouterKey(s) witness "x"

  /** The keys of an announcement document. `Other` stands for any key the
      router does not name itself, so that no two fields spell the same key. */
  datatype Field =
    | MongoId | Id | Message | StartDate | ExpirationDate
    | CreatedBy | CreatedAt | UpdatedBy | UpdatedAt | Other(name: OtherKey)

  /** The key as the dictionary spells it. */
  function Key(f: Field): string {
    match f
    case MongoId => "_id"
    case Id => "id"
    case Message => "message"
    case StartDate => "start_date"
    case ExpirationDate => "expiration_date"
    case CreatedBy => "created_by"
    case CreatedAt => "created_at"
    case UpdatedBy => "updated_by"
    case UpdatedAt => "updated_at"
    case Other(name) => name
  }

  /** Distinct fields are distinct dictionary keys, so a document never
      holds one key twice. */
  lemma KeyInjective(f: Field, g: Field)
    requires Key(f) == Key(g)
    ensures f == g
  {
  }

  type Doc = map<Field, Value>

  /** Python's `str(v)`. */
  function ToText(v: Value): (t: string)
    ensures v.Oid? ==> |t| == 24 && IsLowerHex(t)
  {
    match v
    case Null => "None"
    case Str(s) => s
    case Oid(id) => HexString(id)
  }

  /** `serialize_announcement`: a document with `_id` loses that key and
      gains `id`, the text of the old `_id`; every other field is kept as it
      was. A document without `_id` (the empty one included) is returned
      as it is. */
  function Serialize(d: Doc): (r: Doc)
    ensures MongoId !in r
    ensures MongoId in d ==> r.Keys == d.Keys - {MongoId} + {Id} && r[Id] == Str(ToText(d[MongoId]))
    ensures MongoId !in d ==> r == d
    ensures forall k | k in d && k != MongoId && k != Id :: k in r && r[k] == d[k]
  {
    if MongoId in d then (d - {MongoId})[Id := Str(ToText(d[MongoId]))] else d
  }

  /** A document stored with an ObjectId serialises to its fields with
      `id`, the id's hexadecimal text, in place of `_id`. */
  lemma SerializeStored(d: Doc, id: ObjectId)
    requires MongoId in d && d[MongoId] == Oid(id)
    ensures Serialize(d) == (d - {MongoId})[Id := Str(HexString(id))]
  {
  }

  /** The value a sort on `field` sees: a missing field sorts as null,
      before every value, so last in a descending sort. */
  function SortKey(d: Doc, field: Field): (k: Value)
    ensures field in d ==> k == d[field]
    ensures field !in d ==> forall v :: BsonLe(k, v)
  {
    if field in d then d[field] else Null
  }

  /** MongoDB's ordering of BSON values, restricted to the types above:
      null before text before ObjectIds; text by code point, ObjectIds by
      their bytes (which their fixed-width hexadecimal text orders alike). */
  predicate BsonLe(a: Value, b: Value)
    ensures a.Null? ==> BsonLe(a, b)
    ensures b.Null? && BsonLe(a, b) ==> a.Null?
  {
    match (a, b)
    case (Null, _) => true
    case (Str(s), Null) => false
    case (Str(s), Str(t)) => LexLe(s, t)
    case (Str(s), Oid(_)) => true
    case (Oid(x), Oid(y)) => LexLe(HexString(x), HexString(y))
    case (Oid(_), _) => false
  }

  /** BSON order is a total preorder, so "sorted descending" is meaningful. */
  lemma BsonLeTotal(a: Value, b: Value)
    ensures BsonLe(a, b) || BsonLe(b, a)
  {
    match (a, b)
    case (Str(s), Str(t)) => LexLeTotal(s, t);
    case (Oid(x), Oid(y)) => LexLeTotal(HexString(x), HexString(y));
    case _ =>
  }

  lemma BsonLeTransitive(a: Value, b: Value, c: Value)
    requires BsonLe(a, b) && BsonLe(b, c)
    ensures BsonLe(a, c)
  {
    match (a, b, c)
    case (Str(s), Str(t), Str(u)) => LexLeTransitive(s, t, u);
    case (Oid(x), Oid(y), Oid(z)) => LexLeTransitive(HexString(x), HexString(y), HexString(z));
    case _ =>
  }
}
