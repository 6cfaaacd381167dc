/** The resource serializer and deserializer as objects. */
module ResourceAdapters {
  import opened Machine
  import opened Wrappers
  import opened ResourceImage
  import opened Resources
  import opened CrashSafety

  /**
   What the operating system does not do during a call: inputs of the model.  `space` is how many
   bytes reach the temporary file before a write fails.
   */
  datatype Faults = Faults(createDirectories: bool, openFile: bool, space: nat, renameFile: bool)

  class FileSystem {
    var files: map<string, Bytes>
    ghost var phase: Phase
    ghost var committed: map<string, Commit>
    ghost var serialized: set<(string, Resource)>

    ghost function View(): Disk
      reads this
    {
      Disk(files, phase, committed, serialized)
    }

    ghost predicate Valid()
      reads this
    {
      Inv(View())
    }

    /** An empty disk. */
    constructor ()
      ensures Blank(View()) && Valid() && files == map[]
    {
      files, phase, committed, serialized := map[], Idle, map[], {};
      new;
      BlankInv(View());
    }

    method OpenTmp(stem: string, ghost r: Resource)
      requires Valid() && phase.Idle?
      modifies this
      ensures View() == Next(old(View()), Open(stem, r)) && Valid()
      ensures SameBut(old(files), files, {TmpFile(stem)})
    {
      StepKeepsInv(View(), Open(stem, r));
      files := files[TmpFile(stem) := []];
      phase, serialized := Writing(stem, r, 0, false), serialized + {(stem, r)};
    }

    /** `outfile.write` with space left for so many bytes: appends to the open temporary file. */
    method Append(stem: string, bytes: Bytes, good: bool, space: nat) returns (stillGood: bool)
      requires Valid() && phase.Writing? && phase.stem == stem && good == !phase.bad
      requires good ==>
        var image := Image(phase.resource);
        phase.written + |bytes| <= |image| && bytes == image[phase.written..phase.written + |bytes|]
      modifies this
      ensures Valid() && stillGood == (good && |bytes| <= space)
      ensures View() ==
        if !good then old(View()) else Next(old(View()), if stillGood then Write(|bytes|) else WriteFails(space))
      ensures SameBut(old(files), files, {TmpFile(stem)})
    {
      if !good {
        return false;
      }
      stillGood := |bytes| <= space;
      var n := if stillGood then |bytes| else space;
      ghost var a := if stillGood then Write(n) else WriteFails(n);
      StepKeepsInv(View(), a);
      ghost var image := Image(phase.resource);
      PrefixGrows(image, bytes, phase.written, n);
      files := files[TmpFile(stem) := files[TmpFile(stem)] + bytes[..n]];
      phase := phase.(written := phase.written + n, bad := !stillGood);
    }

    /** `rename` asks nothing of what is in the file. */
    method RenameTmp(stem: string, fails: bool) returns (ok: bool)
      requires Valid() && phase.Writing? && phase.stem == stem
      requires phase.bad || phase.written == |Image(phase.resource)|
      modifies this
      ensures ok == !fails && Valid()
      ensures View() == Next(old(View()), if fails then RenameFails else Rename)
      ensures SameBut(old(files), files, if fails then {} else {TmpFile(stem), BinFile(stem)})
      ensures !fails ==> TmpFile(stem) !in files
    {
      NamesDoNotCollide(stem, stem);
      StepKeepsInv(View(), if fails then RenameFails else Rename);
      if fails {
        phase := Idle;
        return false;
      }
      var content := files[TmpFile(stem)];
      committed := committed[stem := Commit(phase.resource, phase.written, phase.bad)];
      files := (files - {TmpFile(stem)})[BinFile(stem) := content];
      phase := Idle;
      ok := true;
    }

    method RemoveBin(stem: string)
      requires Valid() && phase.Idle?
      modifies this
      ensures View() == Next(old(View()), Remove(stem)) && Valid()
      ensures BinFile(stem) !in files && SameBut(old(files), files, {BinFile(stem)})
    {
      StepKeepsInv(View(), Remove(stem));
      files := files - {BinFile(stem)};
      committed := committed - {stem};
    }
  }

  /** What a call that writes a resource with so much space puts in place. */
  function Written(r: Resource, space: nat): Commit {
    var size := |Image(r)|;
    Commit(r, if space < size then space else size, space < size)
  }

  lemma WrittenContent(r: Resource, space: nat)
    ensures forall content :: Holds(content, Written(r, space)) ==>
      content == var image := Image(r); if space < |image| then image[..space] else image
  {
  }

  class ResourceSerializer {
    /**
     `Serialize`.  `acts` is what it does to the disk, step by step, so a crash in the middle
     leaves the disk in a state that `CrashSafety` speaks of.  A call that gets past the checksum
     either puts in place what has been written or throws, and does not throw for a failed write;
     a call that does not get past it is without effect.
     */
    method Serialize(fs: FileSystem, resource: ContainerResource2D, key: string, path: string, faults: Faults)
      returns (r: Result<()>, ghost acts: seq<Action>)
      requires fs.Valid() && fs.phase.Idle? && resource.Valid()
      modifies fs, resource`checkSum_, resource`dirty_
      ensures fs.Valid() && fs.phase.Idle? && Reaches(old(fs.View()), acts, fs.View())
      ensures
        var gate := resource.crc(resource.DataBytes()) != old(resource.checkSum_);
        && (key == "" || faults.createDirectories ==>
              r.Throw? && acts == [] && unchanged(resource))
        && (key != "" && !faults.createDirectories ==>
              && resource.checkSum_ == resource.crc(resource.DataBytes()) && resource.dirty_ == gate
              && (r.Ok? <==> !gate || (!faults.openFile && !faults.renameFile))
              && (!gate || faults.openFile ==> acts == [])
              && (r.Ok? && gate ==> IsStored(fs, Stem(path, key), Written(resource.View(), faults.space))))
      ensures r.Throw? ==> fs.committed == old(fs.committed)
      // no other file is touched; in plain names, `key` below the directory `path`
      ensures SameBut(old(fs.files), fs.files,
        {TmpFile(Stem(path, key))} + if r.Ok? then {BinFile(Stem(path, key))} else {})
      ensures Plain(path, key) ==>
        && SameBut(old(fs.files), fs.files, {path + "/" + key + ".tmp", path + "/" + key + ".bin"})
        && (r.Ok? && acts != [] ==>
              && path + "/" + key + ".tmp" !in fs.files && path + "/" + key + ".bin" in fs.files
              && fs.files[path + "/" + key + ".bin"] ==
                   var image := Image(resource.View()); if faults.space < |image| then image[..faults.space] else image)
    {
      FileNames(path, key);
      WrittenContent(resource.View(), faults.space);
      hide Stem, BinFile, TmpFile, Written, Holds, Image;
      acts := [];
      if key == "" || faults.createDirectories {
        return Throw("runtime_error"), acts;
      }
      var changed := resource.UpdateChecksum();
      if !changed {
        return Ok(()), acts;
      }
      if faults.openFile {
        return Throw("runtime_error"), acts;
      }
      r, acts := WriteFile(fs, resource, Stem(path, key), faults.space, faults.renameFile);
    }

    /** From opening the temporary file to renaming it. */
    method WriteFile(fs: FileSystem, resource: ContainerResource2D, stem: string, space: nat, renameFails: bool)
      returns (r: Result<()>, ghost acts: seq<Action>)
      requires fs.Valid() && fs.phase.Idle? && resource.Valid()
      modifies fs
      ensures fs.Valid() && fs.phase.Idle? && Reaches(old(fs.View()), acts, fs.View())
      ensures r.Ok? <==> !renameFails
      ensures r.Ok? ==> IsStored(fs, stem, Written(resource.View(), space)) && TmpFile(stem) !in fs.files
      ensures r.Throw? ==> fs.committed == old(fs.committed)
      ensures SameBut(old(fs.files), fs.files, {TmpFile(stem)} + if r.Ok? then {BinFile(stem)} else {})
    {
      ghost var d0, v := fs.View(), resource.View();
      ImageInThree(v);
      fs.OpenTmp(stem, v);
      Extend(d0, [], d0, Open(stem, v));
      acts := [] + [Open(stem, v)];
      ghost var f1 := fs.files;
      hide Inv, Image, Reaches, Next, Enabled, SameBut, TmpFile, BinFile;

      acts := WriteParts(fs, resource, stem, space, d0, acts);
      ghost var f2 := fs.files;
      SameButTwice(d0.files, f1, f2, {TmpFile(stem)}, {TmpFile(stem)});

      r, acts := PutInPlace(fs, stem, renameFails, d0, acts);
      ghost var more := if r.Ok? then {TmpFile(stem), BinFile(stem)} else {};
      SameButTwice(d0.files, f2, fs.files, {TmpFile(stem)} + {TmpFile(stem)}, more);
      assert {TmpFile(stem)} + {TmpFile(stem)} + more == {TmpFile(stem)} + if r.Ok? then {BinFile(stem)} else {};
    }

    /** The three calls of `write`. */
    method WriteParts(fs: FileSystem, resource: ContainerResource2D, stem: string, space: nat,
                      ghost d0: Disk, ghost before: seq<Action>)
      returns (ghost acts: seq<Action>)
      requires fs.Valid() && resource.Valid() && Reaches(d0, before, fs.View())
      requires fs.phase == Progress(stem, resource.View(), 0, space)
      modifies fs
      ensures fs.Valid() && Reaches(d0, acts, fs.View())
      ensures fs.phase == Progress(stem, resource.View(), |Image(resource.View())|, space)
      ensures fs.committed == old(fs.committed) && SameBut(old(fs.files), fs.files, {TmpFile(stem)})
    {
      hide Inv, Image, Reaches, SameBut, TmpFile;
      ImageInThree(resource.View());
      ghost var f0, tmp := fs.files, {TmpFile(stem)};
      var MBuff := Encode(resource.M_, SIZE_BYTES);
      var good: bool;
      good, acts := WritePart(fs, stem, MBuff, 0, true, space, d0, before);
      ghost var f1 := fs.files;
      var NBuff := Encode(resource.N_, SIZE_BYTES);
      good, acts := WritePart(fs, stem, NBuff, SIZE_BYTES, good, space, d0, acts);
      ghost var f2 := fs.files;
      SameButTwice(f0, f1, f2, tmp, tmp);
      var buff := Flat(resource.data_);
      good, acts := WritePart(fs, stem, buff, 2 * SIZE_BYTES, good, space, d0, acts);
      SameButTwice(f0, f2, fs.files, tmp + tmp, tmp);
      assert tmp + tmp + tmp == tmp;
    }

    /** One of the three calls of `write`, at its offset in the image. */
    method WritePart(fs: FileSystem, stem: string, bytes: Bytes, offset: nat, good: bool, space: nat,
                     ghost d0: Disk, ghost acts: seq<Action>)
      returns (stillGood: bool, ghost acts': seq<Action>)
      requires fs.Valid() && fs.phase.Writing? && fs.phase == Progress(stem, fs.phase.resource, offset, space)
      requires good == !fs.phase.bad && Reaches(d0, acts, fs.View())
      requires
        var image := Image(fs.phase.resource);
        offset + |bytes| <= |image| && bytes == image[offset..offset + |bytes|]
      modifies fs
      ensures fs.Valid() && fs.phase == Progress(stem, old(fs.phase.resource), offset + |bytes|, space)
      ensures stillGood == !fs.phase.bad && Reaches(d0, acts', fs.View()) && fs.committed == old(fs.committed)
      ensures SameBut(old(fs.files), fs.files, {TmpFile(stem)})
    {
      hide Inv, Image, Reaches, FilesMatch, TmpMatches, SameBut, TmpFile;
      ghost var d := fs.View();
      stillGood := fs.Append(stem, bytes, good, if offset <= space then space - offset else 0);
      acts' := acts;
      if good {
        ghost var a := if stillGood then Write(|bytes|) else WriteFails(space - offset);
        Extend(d0, acts, d, a);
        acts' := acts + [a];
      }
    }

    /** The rename at the end. */
    method PutInPlace(fs: FileSystem, stem: string, renameFails: bool, ghost d0: Disk, ghost acts: seq<Action>)
      returns (r: Result<()>, ghost acts': seq<Action>)
      requires fs.Valid() && fs.phase.Writing? && fs.phase.stem == stem && Reaches(d0, acts, fs.View())
      requires fs.phase.bad || fs.phase.written == |Image(fs.phase.resource)|
      modifies fs
      ensures fs.Valid() && fs.phase.Idle? && Reaches(d0, acts', fs.View())
      ensures r.Ok? <==> !renameFails
      ensures r.Ok? ==>
        IsStored(fs, stem, Commit(old(fs.phase.resource), old(fs.phase.written), old(fs.phase.bad)))
      ensures r.Ok? ==> TmpFile(stem) !in fs.files
      ensures r.Throw? ==> fs.committed == old(fs.committed)
      ensures SameBut(old(fs.files), fs.files, if r.Ok? then {TmpFile(stem), BinFile(stem)} else {})
    {
      ghost var d, last := fs.View(), if renameFails then RenameFails else Rename;
      var renamed := fs.RenameTmp(stem, renameFails);
      Extend(d0, acts, d, last);
      acts' := acts + [last];
      FileOf(fs.View(), stem);
      r := if renamed then Ok(()) else Throw("runtime_error");
    }

    /** `Unserialize`; the file is left alone unless its permissions can be set and it can be removed. */
    method Unserialize(fs: FileSystem, key: string, path: string, permissionsFail: bool, removeFails: bool)
      returns (r: Result<()>)
      requires fs.Valid() && fs.phase.Idle?
      modifies fs
      ensures fs.Valid()
      ensures r.Throw? <==>
        key == "" || (BinFile(Stem(path, key)) in old(fs.files) && (permissionsFail || removeFails))
      ensures fs.View() == if r.Throw? then old(fs.View()) else Next(old(fs.View()), Remove(Stem(path, key)))
      ensures SameBut(old(fs.files), fs.files, if r.Ok? then {BinFile(Stem(path, key))} else {})
      ensures r.Ok? && Plain(path, key) ==>
        && path + "/" + key + ".bin" !in fs.files
        && SameBut(old(fs.files), fs.files, {path + "/" + key + ".bin"})
    {
      FileNames(path, key);
      if key == "" {
        return Throw("runtime_error");
      }
      var stem := Stem(path, key);
      if BinFile(stem) in fs.files {
        if permissionsFail || removeFails {
          return Throw("runtime_error");
        }
        fs.RemoveBin(stem);
      } else {
        NothingToRemove(fs.View(), stem);
      }
      r := Ok(());
    }
  }

  lemma NothingToRemove(d: Disk, stem: string)
    requires Inv(d) && d.phase.Idle? && BinFile(stem) !in d.files
    ensures Next(d, Remove(stem)) == d
  {
    FileOf(d, stem);
    hide BinFile;
    assert d.files - {BinFile(stem)} == d.files && d.committed - {stem} == d.committed;
  }

  lemma PrefixGrows(image: Bytes, bytes: Bytes, from: nat, n: nat)
    requires n <= |bytes| && from + |bytes| <= |image| && bytes == image[from..from + |bytes|]
    ensures image[..from] + bytes[..n] == image[..from + n]
  {
    assert bytes[..n] == image[from..from + n];
  }

  /** How far the writes have got after so many bytes of the image. */
  ghost function Progress(stem: string, r: Resource, offset: nat, space: nat): Phase {
    Writing(stem, r, if space < offset then space else offset, space < offset)
  }

  /** A file was put in place, and holds what was written of it. */
  ghost predicate IsStored(fs: FileSystem, stem: string, c: Commit)
    reads fs
  {
    && stem in fs.committed && fs.committed[stem] == c
    && BinFile(stem) in fs.files && Holds(fs.files[BinFile(stem)], c)
  }

  /** The three writes make up the image. */
  lemma ImageInThree(r: Resource)
    ensures var image := Image(r);
      && |image| == 2 * SIZE_BYTES + |Flat(r.cells)|
      && image[0..SIZE_BYTES] == Encode(r.M, SIZE_BYTES)
      && image[SIZE_BYTES..2 * SIZE_BYTES] == Encode(r.N, SIZE_BYTES)
      && image[2 * SIZE_BYTES..|image|] == Flat(r.cells)
  {
  }

  class ResourceDeserializer {
    var keyToResourceMap: map<string, nat>   // the element size of the type registered under a key

    constructor ()
      ensures keyToResourceMap == map[]
    {
      keyToResourceMap := map[];
    }

    /** `RegisterResource<T>` for an arithmetic `T`, given `sizeof(T)`. */
    method RegisterResource(key: string, width: nat) returns (ok: bool)
      requires 0 < width
      modifies this
      ensures ok <==> key != "" && key !in old(keyToResourceMap)
      ensures keyToResourceMap == if ok then old(keyToResourceMap)[key := width] else old(keyToResourceMap)
    {
      ok := key != "" && key !in keyToResourceMap;
      if ok {
        keyToResourceMap := keyToResourceMap[key := width];
      }
    }

    /** `Deserialize`: reads the sizes and the elements of a file into a new resource. */
    method Deserialize(fs: FileSystem, key: string, path: string, crc: Bytes -> int)
      returns (r: Result<ContainerResource2D>)
      requires key in keyToResourceMap ==> 0 < keyToResourceMap[key]
      requires
        var name := BinFile(Stem(path, key));
        key in keyToResourceMap && name in fs.files ==> IsInRange(fs.files[name], keyToResourceMap[key])
      ensures Plain(path, key) && path + "/" + key + ".bin" !in fs.files ==> r.Throw?
      ensures Plain(path, key) && r.Ok? ==>
        var file := fs.files[path + "/" + key + ".bin"];
        && key in keyToResourceMap && |file| >= 16
        && (|file| > 16 ==>
              (|file| - 16) % keyToResourceMap[key] == 0 && NumberAt(file, 0) != 0 && NumberAt(file, 8) != 0)
        && r.value.M_ == NumberAt(file, 0) && r.value.N_ == NumberAt(file, 8)
        && HoldsElements(r.value.data_, file, keyToResourceMap[key])
      ensures
        var name := BinFile(Stem(path, key));
        && (key == "" || path == "" || name !in fs.files || key !in keyToResourceMap ==> r.Throw?)
        && (key != "" && path != "" && name in fs.files && key in keyToResourceMap ==>
              var file, width := fs.files[name], keyToResourceMap[key];
              && (r.Ok? <==> IsReadable(file, width))
              && (r.Ok? ==>
                    && fresh(r.value) && r.value.width == width && r.value.crc == crc
                    && r.value.M_ == HeaderM(file) && r.value.N_ == HeaderN(file)
                    && HoldsElements(r.value.data_, file, width)))
    {
      FileNames(path, key);
      hide Stem, BinFile, TmpFile, NumberAt;
      if key == "" || path == "" {
        return Throw("runtime_error");
      }
      var name := BinFile(Stem(path, key));
      if name !in fs.files {
        return Throw("runtime_error");
      }
      var inFile := fs.files[name];
      if |inFile| < DATA_OFFSET {
        return Throw("ios_base::failure");
      }
      HeaderFormat(inFile);
      var M := Decode(inFile[..SIZE_BYTES]);
      var N := Decode(inFile[SIZE_BYTES..DATA_OFFSET]);
      if key !in keyToResourceMap {
        return Throw("runtime_error");
      }
      var container := new ContainerResource2D(keyToResourceMap[key], crc);
      var set1 := container.SetColumnSize(M);
      var set2 := container.SetRowSize(N);
      if |inFile| > DATA_OFFSET {
        var ok := container.Assign(inFile[DATA_OFFSET..]);
        if !ok {
          return Throw("runtime_error");
        }
      }
      r := Ok(container);
    }
  }

  /** Sizes, and then nothing or a whole number of elements for dimensions that are set. */
  predicate IsReadable(file: Bytes, width: nat)
    requires 0 < width
  {
    && |file| >= DATA_OFFSET
    && (|file| > DATA_OFFSET ==>
          (|file| - DATA_OFFSET) % width == 0 && HeaderM(file) != 0 && HeaderN(file) != 0)
  }

  /** Whether `Assign` is defined on the elements of a file that it does not refuse; the source does not ask. */
  predicate IsInRange(file: Bytes, width: nat)
    requires 0 < width
  {
    |file| > DATA_OFFSET && IsReadable(file, width) ==>
      InRange(HeaderM(file), HeaderN(file), (|file| - DATA_OFFSET) / width)
  }

  /** The data of a resource that was read from `file`: its elements, and zeros where there are too few. */
  predicate HoldsElements(cells: seq<Cell>, file: Bytes, width: nat)
    requires 0 < width && |file| >= DATA_OFFSET
  {
    var n := (|file| - DATA_OFFSET) / width;
    if |file| == DATA_OFFSET then cells == []
    else
      && |cells| == Room(HeaderM(file), HeaderN(file)) && n <= |cells|
      && Copied(cells, file[DATA_OFFSET..], width, n)
      && forall i :: n <= i < |cells| ==> cells[i] == seq(width, _ => 0)
  }

  /** Reading a complete image is possible and gives the resource back, if its dimensions are in range. */
  lemma ImageReadsBack(v: Resource, width: nat)
    requires WellFormed(v, width)
    ensures var file := Image(v);
      && |file| >= DATA_OFFSET && HeaderM(file) == v.M && HeaderN(file) == v.N
      && IsReadable(file, width) && (IsInRange(file, width) <==> IsAddressable(v))
      && (IsAddressable(v) ==> forall cells :: HoldsElements(cells, file, width) ==> cells == v.cells)
  {
    var file := Image(v);
    ImageParts(v, width);
    MultipleMod(|v.cells|, width, 0, |v.cells| * width);
    assert |v.cells| * width / width == |v.cells|;
    if |v.cells| == 0 {
      assert |file| == DATA_OFFSET;
      return;
    }
    NonZeroProduct(v.M, v.N, |v.cells|, width);
    forall cells | IsAddressable(v) && HoldsElements(cells, file, width) ensures cells == v.cells {
      if |v.cells| > 0 {
        forall i | 0 <= i < |v.cells| ensures cells[i] == v.cells[i] {
          FlatAt(v.cells, width, i);
          assert ElementIs(cells[i], file[DATA_OFFSET..], width, i);
        }
      }
    }
  }

  /** A resource that `Assign` can count through. */
  predicate IsAddressable(v: Resource) {
    |v.cells| > 0 ==> InRange(v.M, v.N, |v.cells|)
  }

  lemma NonZeroProduct(M: nat, N: nat, n: nat, width: nat)
    requires M * N == n > 0 && width > 0
    ensures M != 0 && N != 0 && n * width > 0
  {
  }

  /**
   Whatever has happened to the disk, crashes included, a resource that was put in place without a
   failed write and not removed since comes back as it was.
   */
  method DeserializeCommitted(d: ResourceDeserializer, fs: FileSystem, key: string, path: string, crc: Bytes -> int)
    returns (r: Result<ContainerResource2D>)
    requires fs.Valid() && Stem(path, key) in fs.committed && key != "" && path != "" && key in d.keyToResourceMap
    requires
      var c := fs.committed[Stem(path, key)];
      !c.failed && WellFormed(c.resource, d.keyToResourceMap[key]) && IsAddressable(c.resource)
    ensures r.Ok? && fresh(r.value) && r.value.Valid() && r.value.View() == fs.committed[Stem(path, key)].resource
  {
    ghost var stem := Stem(path, key);
    ghost var v := fs.committed[stem].resource;
    FileOf(fs.View(), stem);
    CompleteIffNoneFailed(fs.files[BinFile(stem)], fs.committed[stem]);
    hide Image, IsReadable, IsInRange, IsAddressable, HoldsElements, Holds, Inv, Stem, BinFile;
    ImageReadsBack(v, d.keyToResourceMap[key]);
    r := d.Deserialize(fs, key, path, crc);
    assert r.value.View() == v;
  }

  /** Row-major layout of a matrix. */
  predicate LaidOut(matrix: seq<seq<Cell>>, cells: seq<Cell>, N: nat) {
    forall i, j :: 0 <= i < |matrix| && 0 <= j < |matrix[i]| ==> IsAt(matrix, cells, N, i, j)
  }

  /** `GetData(i, j)` gives the element of the matrix. */
  predicate IsAt(matrix: seq<seq<Cell>>, cells: seq<Cell>, N: nat, i: nat, j: nat)
    requires i < |matrix| && j < |matrix[i]|
  {
    j < N && i * N + j < |cells| && cells[i * N + j] == matrix[i][j]
  }

  lemma FlatIsLaidOut(matrix: seq<seq<Cell>>)
    requires Rectangular(matrix)
    ensures LaidOut(matrix, Flat(matrix), Columns(matrix))
  {
    forall i, j | 0 <= i < |matrix| && 0 <= j < |matrix[i]| ensures IsAt(matrix, Flat(matrix), Columns(matrix), i, j) {
      assert |matrix[i]| == |matrix[0]|;
      RowMajor(matrix, i, j);
    }
  }

  /** `LoadInput` and `Serialize`, onto an empty disk. */
  method StoreMatrix(matrix: seq<seq<Cell>>, width: nat, crc: Bytes -> int, key: string, path: string)
    returns (fs: FileSystem)
    requires 0 < width && CellsOf(matrix, width) && Rectangular(matrix) && key != ""
    requires |matrix| < SIZE_T && Columns(matrix) < SIZE_T && |matrix| * Columns(matrix) < SIZE_T
    ensures fresh(fs) && fs.Valid()
    ensures crc(Flat(Flat(matrix))) == -1 ==> fs.files == map[]
    ensures crc(Flat(Flat(matrix))) != -1 ==>
      var v := Resource(|matrix|, Columns(matrix), Flat(matrix));
      && Stem(path, key) in fs.committed && fs.committed[Stem(path, key)].resource == v
      && !fs.committed[Stem(path, key)].failed && WellFormed(v, width)
  {
    var resource := new ContainerResource2D(width, crc);
    var loaded := resource.LoadInput(matrix);
    fs := StoreNew(resource, key, path);
  }

  method StoreNew(resource: ContainerResource2D, key: string, path: string) returns (fs: FileSystem)
    requires resource.Valid() && key != "" && resource.checkSum_ == -1
    modifies resource`checkSum_, resource`dirty_
    ensures fresh(fs) && fs.Valid()
    ensures resource.crc(resource.DataBytes()) == -1 ==> fs.files == map[]
    ensures resource.crc(resource.DataBytes()) != -1 ==>
      && Stem(path, key) in fs.committed && fs.committed[Stem(path, key)].resource == resource.View()
      && !fs.committed[Stem(path, key)].failed
  {
    hide Image, Inv, Stem, BinFile, WellFormed;
    fs := new FileSystem();
    var serializer := new ResourceSerializer;
    var space := 2 * SIZE_BYTES + |Flat(resource.data_)|;
    ImageInThree(resource.View());
    var saved, acts := serializer.Serialize(fs, resource, key, path, Faults(false, false, space, false));
  }

  /**
   A matrix goes into a resource, the resource into a file, the file into a new resource, and
   every element is where it was; matrices without rows or columns included.  Only data with the
   checksum -1 does not get there: it is taken for what was serialized last.
   */
  method FileRoundTrip(matrix: seq<seq<Cell>>, width: nat, crc: Bytes -> int, key: string, path: string)
    returns (r: Result<ContainerResource2D>)
    requires 0 < width && CellsOf(matrix, width) && Rectangular(matrix) && key != "" && path != ""
    requires |matrix| < SIZE_T && Columns(matrix) < SIZE_T && |matrix| * Columns(matrix) < SIZE_T
    requires IsAddressable(Resource(|matrix|, Columns(matrix), Flat(matrix)))
    ensures r.Ok? <==> crc(Flat(Flat(matrix))) != -1
    ensures r.Ok? ==>
      && r.value.Valid() && r.value.M_ == |matrix| && r.value.N_ == Columns(matrix)
      && LaidOut(matrix, r.value.data_, r.value.N_)
  {
    hide Image, Inv, Stem, BinFile, WellFormed, LaidOut, IsAddressable, IsReadable, IsInRange;
    var fs := StoreMatrix(matrix, width, crc, key, path);
    var deserializer := new ResourceDeserializer();
    var registered := deserializer.RegisterResource(key, width);
    FlatIsLaidOut(matrix);
    if crc(Flat(Flat(matrix))) == -1 {
      r := deserializer.Deserialize(fs, key, path, crc);
    } else {
      r := DeserializeCommitted(deserializer, fs, key, path, crc);
    }
  }
}
