/** The path walk of `namex` (src/fs.c) on a mounted volume: each component is looked up
    in the bytes of the directory that the walk has come to. */
module PathFiles {
  import opened Common
  import opened Params
  import opened FsModel
  import opened FreeSpace
  import opened FileSteps
  import opened FileSystem
  import opened Directory
  import opened DirectoryFiles
  import Namei

  /** An inode as the walk sees it: a directory by its records. */
  ghost function NodeOf(blk: Blocks, ip: Inode): Namei.Node {
    if Sized(ip) && ip.kind == Namei.T_DIR && ip.size % RECORD == 0
    then Namei.Node(ip.kind, 0, Records(File(blk, ip), ip.size / RECORD))
    else Namei.Node(ip.kind, 0, [])
  }

  ghost function Nodes(s: Snapshot): (r: seq<Namei.Node>)
    ensures |r| == |s.ino| && forall k :: 0 <= k < |r| ==> r[k] == NodeOf(s.blk, s.ino[k])
  {
    seq(|s.ino|, k requires 0 <= k < |s.ino| => NodeOf(s.blk, s.ino[k]))
  }

  /** Every directory ends with a whole record; another would be a panic. */
  ghost predicate Whole(ino: seq<Inode>) {
    forall k :: 0 <= k < |ino| ==> Sized(ino[k]) && (ino[k].kind == Namei.T_DIR ==> ino[k].size % RECORD == 0)
  }

  /** Reading a directory changes no node, even if it fills a hole. */
  lemma NodesStill(g: Geometry, s: Snapshot, s': Snapshot, i: nat)
    requires Sound(g, s, {}) && i < |s.ino| && Whole(s.ino) && Still(g, s, s', i, File(s.blk, s.ino[i]))
    ensures Nodes(s') == Nodes(s) && Whole(s'.ino)
  {
    forall k: nat | k < |s.ino|
      ensures NodeOf(s'.blk, s'.ino[k]) == NodeOf(s.blk, s.ino[k])
      ensures Sized(s'.ino[k]) && (s'.ino[k].kind == Namei.T_DIR ==> s'.ino[k].size % RECORD == 0)
    {
      OneNode(g, s, s', i, k);
    }
    assert Nodes(s') == Nodes(s);
  }

  lemma OneNode(g: Geometry, s: Snapshot, s': Snapshot, i: nat, k: nat)
    requires Sound(g, s, {}) && i < |s.ino| && k < |s.ino| && Sized(s.ino[k]) && Sized(s.ino[i])
    requires Still(g, s, s', i, File(s.blk, s.ino[i]))
    ensures NodeOf(s'.blk, s'.ino[k]) == NodeOf(s.blk, s.ino[k])
    ensures Sized(s'.ino[k]) && s'.ino[k].kind == s.ino[k].kind && s'.ino[k].size == s.ino[k].size
  {
    hide Records;
    if k != i {
      OthersFile(g, s.bits, s.blk, s.ino, s.owner, s'.blk, s'.ino, s'.owner, i, k);
    }
  }

  /** One component: the entry of directory `ip`, or 0. */
  method Descend(v: Volume, ip: nat, name: seq<Byte>) returns (inum: nat, panicked: bool)
    requires v.Valid({}) && Whole(v.ino) && ip < |v.ino| && v.ino[ip].kind == Namei.T_DIR
    modifies v`blk, v`bits, v`ino, v`owner, v`logged
    ensures panicked ==> Full(v.bits)
    ensures !panicked ==> v.Valid({}) && Whole(v.ino) && Nodes(v.Now()) == old(Nodes(v.Now()))
    ensures !panicked ==> Find(old(Nodes(v.Now()))[ip].recs, Name(name)) == if inum == 0 then None else Some(inum)
  {
    hide Sound, Keeps, HoleFree, File, Records, Find, Name;
    ghost var s, n := v.Now(), v.ino[ip].size / RECORD;
    StillSelf(v.g, s, ip);
    var off;
    inum, off, panicked := Dirlookup(v, s, ip, File(s.blk, s.ino[ip]), n, name);
    if !panicked {
      NodesStill(v.g, s, v.Now(), ip);
    }
  }

  /** The loop of namex from inode `start`. An inode that is not there or has no type is
      the panic of `ilock`. */
  method Follow(v: Volume, start: nat, path: seq<Byte>, nameiparent: bool) returns (found: bool, ip: nat, panicked: bool)
    requires v.Valid({}) && Whole(v.ino) && forall j :: 0 <= j < |path| ==> path[j] != 0
    modifies v`blk, v`bits, v`ino, v`owner, v`logged
    ensures panicked ==> Full(v.bits) || (ip < |v.ino| ==> v.ino[ip].kind == 0)
    ensures !panicked ==> v.Valid({}) && Whole(v.ino) && Nodes(v.Now()) == old(Nodes(v.Now()))
    ensures !panicked ==>
      Namei.Walk(old(Nodes(v.Now())), start, Namei.Components(path), nameiparent) == if found then Some(ip) else None
  {
    ghost var nodes, cs := Nodes(v.Now()), Namei.Components(path);
    ip, found, panicked := start, false, false;
    var rest := path;
    ghost var n := 0;
    assert cs[..0] == [] && cs[0..] == cs;
    while true
      invariant v.Valid({}) && Whole(v.ino) && Nodes(v.Now()) == nodes && !found && !panicked
      invariant (forall j :: 0 <= j < |rest| ==> rest[j] != 0) && n <= |cs| && Namei.Components(rest) == cs[n..]
      invariant Namei.OnPath(nodes, start, cs, n, ip, nameiparent)
      decreases |rest|
    {
      hide Sound, Whole, Namei.Walk, Namei.Components, Find, Name;
      var ok, name, tail := Namei.Skipelem(rest);
      if !ok {
        break;
      }
      if ip >= |v.ino| || v.ino[ip].kind == 0 {
        panicked := true;
        return;
      }
      StepOf(nodes, ip, cs[n..], nameiparent);
      if v.ino[ip].kind != Namei.T_DIR {
        return;
      }
      if nameiparent && tail == [] {
        found := true;
        return;
      }
      var inum;
      inum, panicked := Descend(v, ip, name);
      if panicked {
        return;
      }
      if inum == 0 {
        return;
      }
      Namei.NextOnPath(nodes, start, cs, n, ip, nameiparent, inum);
      ip, rest, n := inum, tail, n + 1;
    }
    found := !nameiparent;
  }

  /** One step of the walk. */
  lemma StepOf(nodes: seq<Namei.Node>, x: nat, cs: seq<seq<Byte>>, parent: bool)
    requires cs != [] && x < |nodes|
    ensures nodes[x].kind != Namei.T_DIR ==> Namei.Walk(nodes, x, cs, parent) == None
    ensures nodes[x].kind == Namei.T_DIR && parent && |cs| == 1 ==> Namei.Walk(nodes, x, cs, parent) == Some(x)
    ensures nodes[x].kind == Namei.T_DIR && !(parent && |cs| == 1) && Find(nodes[x].recs, Name(cs[0])) == None ==>
      Namei.Walk(nodes, x, cs, parent) == None
  {
  }
}
