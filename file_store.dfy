/**
 * The applet's storage collaborator (`fileSystem`, whose source is not
 * part of this model) seen as a map from its four file identifiers to the
 * bytes each file holds. Every operation either succeeds as the map
 * operation or fails (None); a failure stands for the runtime exception the
 * collaborator would raise (a negative size or length, a missing file, a
 * range outside the file).
 */
module FileStore {
  import opened Bytes
  import opened Optional

  /** `keepassData1`, `keepassData2`, `keepassFileName` and `keepassPW`. */
  datatype FileId = Data1 | Data2 | FileName | MasterPw

  type Files = map<FileId, seq<byte>>

  /** `createFile(id, size)`: a fresh file of `size` zero bytes replaces any old one. */
  function Create(fs: Files, id: FileId, size: int): (r: Option<Files>)
    ensures r.Some? <==> size >= 0
    ensures r.Some? ==> id in r.value && |r.value[id]| == size
    ensures r.Some? ==> forall other | other != id :: (other in r.value <==> other in fs)
    ensures r.Some? ==> forall other | other != id && other in fs :: r.value[other] == fs[other]
  {
    if size < 0 then None else Some(fs[id := Zeros(size)])
  }

  /** `writeDataToFile(id, off, src)`: `src` overwrites the file from `off` on; the size is kept. */
  function Write(fs: Files, id: FileId, off: int, src: seq<byte>): (r: Option<Files>)
    ensures r.Some? <==> id in fs && 0 <= off && off + |src| <= |fs[id]|
    ensures r.Some? ==> r.value.Keys == fs.Keys && |r.value[id]| == |fs[id]|
    ensures r.Some? ==> forall other | other != id && other in fs :: r.value[other] == fs[other]
  {
    if id !in fs || off < 0 || off + |src| > |fs[id]| then None
    else Some(fs[id := Splice(fs[id], off, src)])
  }

  /** `readDataFromFile(id, off, len)`. */
  function Read(fs: Files, id: FileId, off: int, len: int): (r: Option<seq<byte>>)
    ensures r.Some? <==> id in fs && 0 <= off && 0 <= len && off + len <= |fs[id]|
    ensures r.Some? ==> |r.value| == len
  {
    if id !in fs || off < 0 || len < 0 || off + len > |fs[id]| then None
    else Some(fs[id][off..off + len])
  }

  /** `deleteFile(id)`: deleting a missing file changes nothing. */
  function Delete(fs: Files, id: FileId): (r: Files)
    ensures id !in r
    ensures forall other | other != id :: (other in r <==> other in fs)
    ensures forall other | other != id && other in fs :: r[other] == fs[other]
  {
    fs - {id}
  }

  /** `getFileSize(id)`. */
  function Size(fs: Files, id: FileId): (r: Option<int>)
    ensures r.Some? <==> id in fs
    ensures r.Some? ==> r.value == |fs[id]|
  {
    if id in fs then Some(|fs[id]|) else None
  }

  /** Replacing a file after deleting it is replacing it. */
  lemma DeleteThenReplace(fs: Files, id: FileId, content: seq<byte>)
    ensures Delete(fs, id)[id := content] == fs[id := content]
  {
    assert Delete(fs, id)[id := content].Keys == fs[id := content].Keys;
  }

  /** Deleting the four files leaves no file at all. */
  lemma DeleteAll(fs: Files)
    ensures Delete(Delete(Delete(Delete(fs, Data1), Data2), FileName), MasterPw) == map[]
  {
    var r := Delete(Delete(Delete(Delete(fs, Data1), Data2), FileName), MasterPw);
    forall id: FileId ensures id !in r {
      match id
      case Data1 =>
      case Data2 =>
      case FileName =>
      case MasterPw =>
    }
    assert r.Keys == {};
  }

  /** A write followed by a read of the same range returns what was written. */
  lemma ReadAfterWrite(fs: Files, id: FileId, off: int, src: seq<byte>)
    requires Write(fs, id, off, src).Some?
    ensures Read(Write(fs, id, off, src).value, id, off, |src|) == Some(src)
  {
    var w := Write(fs, id, off, src).value;
    assert w[id] == Splice(fs[id], off, src);
  }

  /** A freshly created file reads back as zeros over its whole length. */
  lemma ReadAfterCreate(fs: Files, id: FileId, size: int)
    requires size >= 0
    ensures Read(Create(fs, id, size).value, id, 0, size) == Some(Zeros(size))
  {
    var c := Create(fs, id, size).value;
    assert c[id] == Zeros(size);
    assert c[id][0..size] == Zeros(size);
  }
}
