/** Recovery for the file-per-key store: a value is whatever file bears its name. */
module Recover {
  import opened Bits
  import opened Traces
  import opened Oracle
  import opened Replay

  type Hash = seq<Byte> -> string

  predicate EndsWith(name: string, suffix: string) {
    |suffix| <= |name| && name[|name| - |suffix|..] == suffix
  }

  /** A file of the directory itself that is neither scratch space nor the harness's own channel. */
  predicate IsValueFile(name: string) {
    '/' !in name && !EndsWith(name, ".tmp") && name != "crashfuzz.marker"
  }

  /** What the directory recovers to. */
  function FileKv(d: Disk, hash: Hash): (r: RecoveryResult)
    ensures r.Recovered? && r.integrityOk
  {
    Recovered(true, map p | p in d.names && IsValueFile(p) :: hash(d.files[d.names[p]]), None)
  }

  /** `entries` is the directory listing, in any order; a name in it that is no file is a directory. */
  method RecoverFileKv(fs: FileSystem, entries: seq<string>, hash: Hash) returns (recovery: RecoveryResult)
    requires fs.Valid()
    requires forall p :: p in entries ==> '/' !in p
    requires forall p :: p in fs.names && '/' !in p ==> p in entries
    ensures recovery == FileKv(fs.State(), hash)
  {
    var values: map<string, string> := map[];
    for i := 0 to |entries|
      invariant forall p :: p in values <==> p in entries[..i] && p in fs.names && IsValueFile(p)
      invariant forall p :: p in values ==> values[p] == hash(fs.files[fs.names[p]])
    {
      var name := entries[i];
      assert name in entries;
      assert entries[..i + 1] == entries[..i] + [name];
      if name !in fs.names {
        continue;
      }
      if EndsWith(name, ".tmp") || name == "crashfuzz.marker" {
        continue;
      }
      values := values[name := hash(fs.files[fs.names[name]])];
    }
    assert entries[..|entries|] == entries;
    recovery := Recovered(true, values, None);
    var spec := FileKv(fs.State(), hash).values;
    assert values == spec;
  }

  /** A file that bears a value's name is read back as the digest of its bytes, and no other value is. */
  lemma RecoversItsFiles(d: Disk, hash: Hash, p: string)
    ensures p in FileKv(d, hash).values <==> FileAt(d, p).Some? && IsValueFile(p)
    ensures p in FileKv(d, hash).values ==> FileKv(d, hash).values[p] == hash(FileAt(d, p).value)
  {}

  /** Which files are values, by name: no slash, no ".tmp" at the end, and not the marker file. */
  lemma ValueNames(name: string)
    ensures IsValueFile(name) <==>
            && (forall i :: 0 <= i < |name| ==> name[i] != '/')
            && name != "crashfuzz.marker"
            && forall stem: string :: name != stem + ".tmp"
  {
    var n := |name| - 4;
    if n >= 0 && name[n..] == ".tmp" {
      assert name == name[..n] + ".tmp";
    }
    forall stem: string | name == stem + ".tmp" ensures EndsWith(name, ".tmp") {
      assert name[|stem|..] == ".tmp";
    }
  }
}
