/** The index: where each flushed key's record lies on disk. */
module IndexStore {
  import opened Outcomes
  import opened Codec

  /** A location: `length` bytes at `offset` in the segment `fileName`. */
  datatype Index = Index(offset: nat, length: nat, fileName: string)
  {
    /** `Index::from`: keeps offset, length and file name as given. */
    static function From(offset: nat, length: nat, fileName: string): (ix: Index)
      ensures ix.offset == offset && ix.length == length && ix.fileName == fileName
    {
      Index(offset, length, fileName)
    }
  }

  class Indexes {
    var indexes: map<Bytes, Index>

    /** `Indexes::new`: no entries, so every getter answers `None`. */
    constructor ()
      ensures indexes == map[]
      ensures forall key :: GetFile(key) == None && GetOffset(key) == None && GetLen(key) == None
    {
      indexes := map[];
    }

    /** `create_index`: inserts the location of `key`, silently replacing an
        earlier one; every other key keeps its entry. */
    method CreateIndex(key: Bytes, offset: nat, length: nat, fileName: string)
      modifies this
      ensures indexes == old(indexes)[key := Index.From(offset, length, fileName)]
      ensures GetFile(key) == Some(fileName) && GetOffset(key) == Some(offset) && GetLen(key) == Some(length)
      ensures forall k :: k != key ==> GetFile(k) == old(GetFile(k)) && GetOffset(k) == old(GetOffset(k)) && GetLen(k) == old(GetLen(k))
    {
      var index := Index.From(offset, length, fileName);
      indexes := indexes[key := index];
    }

    /** `get_file`: the segment holding `key`, if indexed. */
    function GetFile(key: Bytes): (r: Option<string>)
      reads this
      ensures r.Some? <==> key in indexes
      ensures r.Some? ==> r.value == indexes[key].fileName
    {
      match Lookup(key)
      case Some(v) => Some(v.fileName)
      case None => None
    }

    /** `get_offset`: where the record of `key` starts, if indexed. */
    function GetOffset(key: Bytes): (r: Option<nat>)
      reads this
      ensures r.Some? <==> key in indexes
      ensures r.Some? ==> r.value == indexes[key].offset
    {
      match Lookup(key)
      case Some(v) => Some(v.offset)
      case None => None
    }

    /** `get_len`: how many bytes the record of `key` takes, if indexed. */
    function GetLen(key: Bytes): (r: Option<nat>)
      reads this
      ensures r.Some? <==> key in indexes
      ensures r.Some? ==> r.value == indexes[key].length
    {
      match Lookup(key)
      case Some(v) => Some(v.length)
      case None => None
    }

    /** `BTreeMap::get` on the entries. */
    function Lookup(key: Bytes): Option<Index>
      reads this
    {
      if key in indexes then Some(indexes[key]) else None
    }
  }
}
