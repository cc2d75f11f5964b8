/** The file system as an object whose files the program creates and overwrites. */
module Disks {
  import opened Wrappers
  import opened FileTree

  class Disk {
    var files: Files

    ghost predicate Valid()
      reads this
    {
      WellFormed(files)
    }

    constructor ()
      ensures Valid() && files == map[]
    {
      files := map[];
    }

    /** os.Stat, asked whether the error is "does not exist" */
    predicate IsMissing(name: string)
      reads this
    {
      Missing(files, Resolve(name))
    }

    predicate IsDirectory(name: string)
      reads this
    {
      IsDir(files, Resolve(name))
    }

    /** os.ReadFile */
    function Read(name: string): Option<string>
      reads this
    {
      ReadFile(files, Resolve(name))
    }

    /** os.ReadDir */
    function List(name: string): Option<seq<string>>
      reads this
    {
      ReadDir(files, Resolve(name))
    }

    /** os.MkdirAll: all or nothing */
    method MkdirAll(name: string) returns (ok: bool)
      requires Valid()
      modifies this
      ensures Valid()
      ensures ok <==> forall q :: OnPath(q, Resolve(name)) ==> !IsFile(old(files), q)
      ensures forall q :: NodeAt(files, q) ==
                          if ok && OnPath(q, Resolve(name)) then Some(Dir) else NodeAt(old(files), q)
    {
      var made := MakeAll(files, Resolve(name));
      MakeAllExact(files, Resolve(name));
      ok := made.Some?;
      if ok {
        files := made.value;
      }
    }

    /** os.Create: a new or truncated regular file */
    method Create(name: string) returns (ok: bool)
      requires Valid()
      modifies this
      ensures Valid()
      ensures ok ==> CanCreate(files, Resolve(name))
      ensures ok <==> !DirectoryName(name) && Resolve(name) != [] &&
                      IsDir(old(files), Parent(Resolve(name))) && !IsDir(old(files), Resolve(name))
      ensures forall q :: NodeAt(files, q) ==
                          if ok && q == Resolve(name) then Some(File("")) else NodeAt(old(files), q)
    {
      ok := !DirectoryName(name) && CanCreate(files, Resolve(name));
      if ok {
        WriteWellFormed(files, Resolve(name), "");
        files := files[Resolve(name) := File("")];
      }
    }

    /** io.Copy into a file that was just created */
    method Fill(name: string, data: string)
      requires Valid() && CanCreate(files, Resolve(name))
      modifies this
      ensures Valid()
      ensures forall q :: NodeAt(files, q) ==
                          if q == Resolve(name) then Some(File(data)) else NodeAt(old(files), q)
    {
      WriteWellFormed(files, Resolve(name), data);
      files := files[Resolve(name) := File(data)];
    }

    /** A directory's contents replaced by others, as a copy into an image layout may do. */
    method Populate(name: string, content: Files)
      requires Valid() && WellFormed(content) && IsDir(files, Resolve(name))
      modifies this
      ensures Valid()
      ensures forall q :: NodeAt(files, q) ==
                          if OnPath(Resolve(name), q) then NodeAt(content, Below(Resolve(name), q))
                          else NodeAt(old(files), q)
    {
      GraftExact(files, Resolve(name), content);
      files := Graft(files, Resolve(name), content);
    }
  }
}
