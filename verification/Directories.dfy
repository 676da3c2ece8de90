/**
 * changeDirectory of sys/tarfs.c.  The current directory is the value of PWD in the environment, and
 * every successful change leaves it normalised, with a slash at its end.
 */
module Directories {
  import opened CStrings
  import opened Paths
  import opened Tarfs

  // The first member of this name has no contents.
  ghost predicate IsDirectory(items: seq<Item>, name: string) {
    exists k: nat :: IsFirst(items, name, k) && items[k].data == []
  }

  method CheckIfDirectoryPresent(start: nat, bytes: seq<char>, dir: seq<char>, ghost name: string,
                                 ghost items: seq<Item>)
    returns (present: bool)
    requires IsArchive(bytes, 0, items) && IsCString(dir, name) && start > 0
    ensures present <==> IsDirectory(items, name)
  {
    var i := GetDirAddress(start, bytes, dir, name, items);
    present := i > 0;
    FirstOrAbsent(items, name);
  }

  lemma FirstOrAbsent(items: seq<Item>, name: string)
    ensures IsAbsent(items, name) <==> !exists k: nat :: IsFirst(items, name, k)
    ensures forall i: nat, k: nat :: IsFirst(items, name, i) && IsFirst(items, name, k) ==> i == k
  {
    if !IsAbsent(items, name) {
      var i: nat :| i < |items| && items[i].name == name;
      FirstBelow(items, name, i);
    }
  }

  lemma {:induction false} FirstBelow(items: seq<Item>, name: string, i: nat)
    requires i < |items| && items[i].name == name
    ensures exists k: nat :: IsFirst(items, name, k)
  {
    if j: nat :| j < i && items[j].name == name {
      FirstBelow(items, name, j);
    } else {
      assert IsFirst(items, name, i);
    }
  }

  // The copy of the new directory into the environment
  method StoreDirectory(dest: array<char>, cwd: array<char>, ghost target: string)
    requires dest != cwd && IsCString(dest[..], target) && |target| < cwd.Length
    modifies cwd
    ensures IsCString(cwd[..], target)
  {
    var i := 0;
    CStringAt(dest[..], target, 0);
    while dest[i] != '\0'
      invariant i <= |target| && i < dest.Length && (dest[i] == '\0' <==> i == |target|)
      invariant cwd[..i] == target[..i]
      decreases |target| - i
    {
      CStringAt(dest[..], target, i);
      CStringAt(dest[..], target, i + 1);
      cwd[i] := dest[i];
      i := i + 1;
    }
    cwd[i] := '\0';
    assert target[..i] == target && cwd[..][..i] == target;
  }

  lemma TailIsCString(s: seq<char>, x: string)
    requires IsCString(s, x) && x != ""
    ensures |s| > 0 && IsCString(s[1..], x[1..])
  {
    CStringAt(s, x, |x|);
  }

  method ChangeDirectory(start: nat, bytes: seq<char>, buf: array<char>, cwd: array<char>,
                         ghost items: seq<Item>, ghost s: string, ghost home: seq<string>, ghost text: string)
    returns (result: int, ghost now: seq<string>)
    requires IsArchive(bytes, 0, items) && start > 0 && buf != cwd
    requires IsCString(buf[..], s) && HasShortComponents(s) && RoomFor(s, home) <= 256 <= cwd.Length
    requires IsCString(cwd[..], text) && IsHome(text, home)
    modifies cwd
    ensures now == Resolve(Start(home, s), Split(s))
    ensures result == if IsDirectory(items, Normalised(home, s, 1)[1..]) then 0 else -1
    ensures result == 0 <==>
              exists k: nat ::
                && k < |items| && items[k].name == Normalised(home, s, 1)[1..] && items[k].data == []
                && forall i | 0 <= i < k :: items[i].name != Normalised(home, s, 1)[1..]
    ensures result == 0 ==> IsCString(cwd[..], Normalised(home, s, 1))
    ensures result == 0 ==> IsCString(cwd[..], Dir(now)) && IsHome(Dir(now), now)
    ensures result == -1 ==> cwd[..] == old(cwd[..])
  {
    var dest := new char[256];
    RemoveDotSlash(buf, dest, cwd, 1, s, home, text);
    ghost var target, bare := Normalised(home, s, 1), false;
    now, bare := NormalisedIsClean(home, s, 1);
    TailIsCString(dest[..], target);
    assert dest[1..] == dest[..][1..];
    var present := CheckIfDirectoryPresent(start, bytes, dest[1..], target[1..], items);
    if present {
      StoreDirectory(dest, cwd, target);
      return 0, now;
    }
    result := -1;
  }
}
