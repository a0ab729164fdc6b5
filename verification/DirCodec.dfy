/** Directory entries as 32-byte records (easy-fs/src/layout.rs:384-424), and a
    directory file as a list of them. */
module DirCodec {
  import opened Words
  import opened FsSteps

  const DIRENT_SZ: int := 32

  datatype Entry = Entry(name: seq<byte>, ino: u32)

  /** Names `name()` can give back: they leave room for the terminating zero. */
  predicate GoodName(name: seq<byte>)
  {
    |name| <= 27 && forall i :: 0 <= i < |name| ==> name[i] != 0
  }

  /** `DirEntry::new`, as bytes. A name longer than the field makes the source panic. */
  function Encode(e: Entry): (r: seq<byte>)
    requires |e.name| <= 28
    ensures |r| == 32
  {
    PutU32s(e.name + seq<byte>(32 - |e.name|, _ => 0), 7, [e.ino])
  }

  /** A record is the name, zeros up to byte 28, and the inode number in the last word. */
  lemma RecordBytes(e: Entry)
    requires |e.name| <= 28
    ensures forall k :: 0 <= k < 28 ==> Encode(e)[k] == if k < |e.name| then e.name[k] else 0
    ensures var b := Encode(e); e.ino == b[28] as int + 0x100 * b[29] as int + 0x1_0000 * b[30] as int + 0x100_0000 * b[31] as int
  {
    var base := e.name + seq<byte>(32 - |e.name|, _ => 0);
    PutU32sAt(base, 7, [e.ino], 7);
    assert U32At(Encode(e), 7) == e.ino;
  }

  /** The position of the first zero at or after i; 28 if there is none, and then the
      source runs off the field. */
  function NulAt(b: seq<byte>, i: nat): (r: nat)
    requires i <= 28 <= |b|
    ensures i <= r <= 28
    decreases 28 - i
  {
    if i == 28 || b[i] == 0 then i else NulAt(b, i + 1)
  }

  function Decode(b: seq<byte>): Entry
    requires |b| == 32
  {
    Entry(b[..NulAt(b, 0)], U32At(b, 7))
  }

  lemma {:induction false} NulIs(b: seq<byte>, i: nat, n: nat)
    requires i <= n <= 27 && |b| == 32 && b[n] == 0
    requires forall k :: i <= k < n ==> b[k] != 0
    ensures NulAt(b, i) == n
    decreases n - i
  {
    if i < n {
      NulIs(b, i + 1, n);
    }
  }

  /** An entry written is the entry read, for every name that leaves room for the zero. */
  lemma DecodeEncode(e: Entry)
    requires GoodName(e.name)
    ensures Decode(Encode(e)) == e && NulAt(Encode(e), 0) < 28
  {
    var base := e.name + seq<byte>(32 - |e.name|, _ => 0);
    var b := Encode(e);
    PutU32sAt(base, 7, [e.ino], 7);
    assert forall k :: 0 <= k < 28 ==> b[k] == base[k];
    NulIs(b, 0, |e.name|);
    assert b[..|e.name|] == e.name;
  }

  /** The i-th record of a directory file. */
  function Record(data: seq<byte>, i: nat): (r: seq<byte>)
    requires 32 * i + 32 <= |data|
    ensures |r| == 32
  {
    data[32 * i..32 * i + 32]
  }

  predicate WellFormedDir(data: seq<byte>)
  {
    |data| % 32 == 0 && forall i :: 0 <= i < |data| / 32 ==> NulAt(Record(data, i), 0) < 28
  }

  function Entries(data: seq<byte>): (r: seq<Entry>)
    ensures |r| == |data| / 32
  {
    seq(|data| / 32, i requires 0 <= i < |data| / 32 => Decode(Record(data, i)))
  }

  /** Writing one more record at the end appends one entry. */
  lemma AppendEntry(data: seq<byte>, e: Entry)
    requires WellFormedDir(data) && GoodName(e.name)
    ensures var data' := WriteSpec(data, |data|, Encode(e));
      WellFormedDir(data') && Entries(data') == Entries(data) + [e] && |data'| == |data| + 32
  {
    hide Encode, NulAt, Decode;
    var data' := WriteSpec(data, |data|, Encode(e));
    var n := |data| / 32;
    forall i | 0 <= i < n
      ensures Record(data', i) == Record(data, i)
    {
    }
    assert Record(data', n) == Encode(e);
    DecodeEncode(e);
  }

  /** The first entry with the given name, from i on. */
  function LookupFrom(es: seq<Entry>, name: seq<byte>, i: nat): Option<u32>
    requires i <= |es|
    decreases |es| - i
  {
    if i == |es| then None
    else if es[i].name == name then Some(es[i].ino)
    else LookupFrom(es, name, i + 1)
  }

  function Lookup(es: seq<Entry>, name: seq<byte>): Option<u32> { LookupFrom(es, name, 0) }

  /** Lookup answers exactly whether, and under which number, a name is listed. */
  lemma {:induction false} LookupFromIs(es: seq<Entry>, name: seq<byte>, i: nat)
    requires i <= |es|
    ensures LookupFrom(es, name, i) == None <==> forall k :: i <= k < |es| ==> es[k].name != name
    ensures LookupFrom(es, name, i).Some? ==>
      exists k :: i <= k < |es| && es[k] == Entry(name, LookupFrom(es, name, i).value)
    decreases |es| - i
  {
    if i < |es| {
      LookupFromIs(es, name, i + 1);
      if es[i].name == name {
        assert es[i] == Entry(name, es[i].ino);
      }
    }
  }
}
