/** A mounted file system as the kernel holds it: the volume and the nodes of the directories visited so far. Each
    operation on a directory is one event of the mounted volume, and keeps everything in order exactly if the name fits. */
module VfsMount {
  import opened Bytes
  import opened FatTable
  import opened FatChains
  import opened FatContent
  import opened FatVolume
  import opened FatFile
  import opened FatNames
  import opened FatDirent
  import opened FatDirectory
  import opened FatCreate
  import opened FatRemove
  import opened FatSync
  import opened FatCache
  import opened FatTree
  import opened FatMount
  import opened FatWalk

  /** The node is a directory's, under a name of its own. */
  ghost predicate Sub(c: Node)
    reads c
  {
    c.dir && OwnName(c.name)
  }

  ghost function ClusterOf(sub: Node?): set<nat>
    reads sub
  {
    if sub == null then {} else {sub.cluster}
  }

  class Mount {
    const v: Volume
    const root: nat
    /** First clusters of all directories, and the nodes there are for them. */
    ghost var dirs: set<nat>
    ghost var nodes: map<nat, Node>
    ghost var stale: map<nat, set<nat>>

    /** The nodes of the directories and of everything listed in them. */
    ghost var repr: set<Node>

    /** Every node is its directory's, and no two lists share a node. */
    ghost predicate Shaped()
      reads this`nodes, this`dirs, this`repr, repr
    {
      && nodes.Keys <= dirs && nodes.Values <= repr
      && (forall h :: h in nodes ==> nodes[h].cluster == h && Proper(nodes[h]) && forall c :: c in nodes[h].children ==> c in repr)
      && (forall h, k, c :: h in nodes && k in nodes && h != k && c in nodes[h].children ==> c !in nodes[k].children)
    }

    ghost function Lists(): map<nat, seq<Child>>
      requires Shaped()
      reads this`nodes, this`dirs, this`repr, repr
    {
      map h | h in dirs :: if h in nodes then Views(nodes[h].children) else []
    }

    ghost function Now(): (m: Mounted)
      requires Shaped()
      reads this, v, repr
      ensures m.s.dirs == dirs && m.s.disk == v.disk && m.s.chains == v.chains
    {
      Mounted(State(v.disk, v.chains, dirs), Lists(), stale)
    }

    ghost predicate Valid()
      reads this, v, repr
    {
      Shaped() && Mirrors(v.g, root, Now()) && Charted()
    }

    /** One node a directory: a listed directory is the node kept for it, or was never entered, and the node kept for
        a directory is in the list of the directory whose entry it is. */
    ghost predicate Charted()
      requires Shaped()
      reads this, v, repr
    {
      && (forall h :: h in nodes ==> nodes[h].dir && (h != root ==> OwnName(nodes[h].name)))
      && (forall h, c :: h in nodes && c in nodes[h].children && Sub(c) ==> if c.cluster in nodes then nodes[c.cluster] == c else c.children == [])
      && (forall q, h :: h in nodes && h != root && DirLink(v.g, Now().s, q, h) ==> q in nodes && nodes[h] in nodes[q].children)
    }

    constructor (v: Volume, rootNode: Node)
      requires v.Valid() && rootNode.children == [] && rootNode.dir
      requires Mirrors(v.g, rootNode.cluster, Mounted(State(v.disk, v.chains, {rootNode.cluster}), map[rootNode.cluster := []], map[rootNode.cluster := {}]))
      ensures Valid() && this.v == v && root == rootNode.cluster && nodes == map[rootNode.cluster := rootNode] && repr == {rootNode}
    {
      hide Mirrors, FatOf, WellFormed, DirLink, Sub, Volume.Valid, OwnName;
      this.v, root := v, rootNode.cluster;
      dirs, nodes, stale, repr := {rootNode.cluster}, map[rootNode.cluster := rootNode], map[rootNode.cluster := {}], {rootNode};
      new;
      assert forall n :: n in nodes.Values ==> n == rootNode;
      assert |Views(rootNode.children)| == 0;
      assert Lists() == map[rootNode.cluster := []];
    }

    /** The node is the one of its directory. */
    ghost predicate Holds(parent: Node)
      reads this`nodes, parent
    {
      parent.cluster in nodes && nodes[parent.cluster] == parent
    }

    /** What a call on one directory needs. */
    ghost predicate Ready(parent: Node)
      reads this, v, repr, parent
    {
      Shaped() && Holds(parent) && parent in repr && v.Valid() && parent.cluster in v.chains && Proper(parent)
    }

    /** What Valid says of the directory of `parent`. */
    lemma DirReady(parent: Node)
      requires Valid() && Holds(parent)
      ensures At(v.g, Now(), parent.cluster) && Now().lists[parent.cluster] == Views(parent.children)
      ensures Ready(parent) && Proper(parent) && v.Valid() && parent.cluster in v.chains && parent.cluster in dirs && parent.cluster in stale
    {
      hide Sound, Content, FatOf, WellFormed, DirMirrored;
      SoundReadable(v.g, root, Now().s);
    }

    /** A held node and everything listed in it belong to the mount. */
    lemma HeldInside(parent: Node)
      requires Valid() && Holds(parent)
      ensures Shaped() && parent in repr && forall c :: c in parent.children ==> c in repr
    {
    }

    /** No list changed but that of `parent`, which got only nodes that are new and list nothing, and nothing else of
        any node but sizes of what it listed. */
    twostate predicate OneList(parent: Node, new was: set<Node>)
      reads was, parent, set c | c in parent.children
    {
      && parent in was && Proper(parent) && (forall n :: n in was ==> old(allocated(n)))
      && (forall n :: n in was ==>
            && n.name == old(n.name) && n.dir == old(n.dir) && n.cluster == old(n.cluster)
            && n.dirLba == old(n.dirLba) && n.dirOff == old(n.dirOff) && n.slot == old(n.slot)
            && (n != parent ==> n.children == old(n.children)) && (n !in old(parent.children) ==> n.size == old(n.size)))
      && (forall c :: c in parent.children ==> c in old(parent.children) || (fresh(c) && c.children == []))
    }

    /** Then the shape holds and every other list is as before. */
    twostate lemma OnlyOneList(parent: Node)
      requires old(Shaped()) && old(Holds(parent)) && OneList(parent, old(repr))
      requires nodes == old(nodes) && dirs == old(dirs) && repr == old(repr) + (set c | c in parent.children)
      ensures Shaped() && Lists() == old(Lists())[parent.cluster := Views(parent.children)] && Holds(parent) && old(repr) <= repr && fresh(repr - old(repr))
    {
      forall h | h in nodes && h != parent.cluster
        ensures nodes[h] != parent && nodes[h].children == old(nodes[h].children) && Proper(nodes[h])
        ensures forall c :: c in nodes[h].children ==> c in old(repr) && c !in parent.children && c !in old(parent.children)
        ensures Views(nodes[h].children) == old(Views(nodes[h].children))
      {
        assert old(nodes[h].cluster) == h && old(Proper(nodes[h]));
      }
    }

    /** A listed directory's entry links it, before and after. */
    lemma LinksNow()
      requires Shaped() && Mirrors(v.g, root, Now())
      ensures forall h, c :: h in nodes && c in nodes[h].children && Sub(c) ==> DirLink(v.g, Now().s, h, c.cluster)
    {
      hide Sound, DirMirrored, OwnName, DirLink;
      forall h, c | h in nodes && c in nodes[h].children && Sub(c)
        ensures DirLink(v.g, Now().s, h, c.cluster)
      {
        var i: nat :| i < |nodes[h].children| && nodes[h].children[i] == c;
        assert Now().lists[h][i] == c.View();
        ChildLinks(v.g, root, Now(), h, i);
      }
    }

    twostate lemma LinksBefore()
      requires old(Shaped()) && Mirrors(v.g, root, old(Now()))
      ensures forall h, c :: h in old(nodes) && c in old(nodes[h].children) && old(Sub(c)) ==> DirLink(v.g, old(Now()).s, h, old(c.cluster))
    {
      hide Sound, DirMirrored, OwnName, DirLink;
      forall h, c | h in old(nodes) && c in old(nodes[h].children) && old(Sub(c))
        ensures DirLink(v.g, old(Now()).s, h, old(c.cluster))
      {
        var i: nat :| i < |old(nodes[h].children)| && old(nodes[h].children)[i] == c;
        assert old(Now()).lists[h][i] == old(c.View());
        ChildLinks(v.g, root, old(Now()), h, i);
      }
    }

    lemma SameChild(h: nat, c: Node, d: Node)
      requires Shaped() && Mirrors(v.g, root, Now()) && h in nodes && c in nodes[h].children && d in nodes[h].children
      requires OwnName(c.name) && OwnName(d.name) && c.cluster == d.cluster
      ensures c == d
    {
      hide Sound, DirMirrored, OwnName;
      var i: nat :| i < |nodes[h].children| && nodes[h].children[i] == c;
      var j: nat :| j < |nodes[h].children| && nodes[h].children[j] == d;
      assert Now().lists[h][i] == c.View() && Now().lists[h][j] == d.View();
      ChildOnce(v.g, root, Now(), h, i, j);
    }

    /** A call on the directory of `parent` made the node `sub`, or none, and lost those of `gone`; everything else it
        did to nodes was to change that one list. */
    twostate predicate ListChanged(parent: Node, new sub: Node?, new gone: set<nat>)
      requires old(Shaped()) && Shaped() && old(repr) <= repr
      reads this`nodes, this`dirs, this`repr, repr, parent, sub
    {
      && old(Holds(parent)) && Holds(parent) && OneList(parent, old(repr))
      && nodes == (if sub == null then old(nodes) - gone else (old(nodes) - gone)[sub.cluster := sub])
      && (forall c :: c in old(parent.children) && old(Sub(c)) && old(c.cluster) !in gone ==> c in parent.children)
      && (sub != null ==> sub.cluster !in old(dirs) && sub.cluster !in gone && sub in parent.children && Sub(sub) && fresh(sub))
    }

    /** Such a call from a valid state, which left everything but the nodes in order, and directories listed where they
        were. */
    twostate predicate Changed(parent: Node, new sub: Node?, new gone: set<nat>)
      reads this, v, repr, parent, sub
    {
      && old(Valid()) && Shaped() && Mirrors(v.g, root, Now()) && old(repr) <= repr && ListChanged(parent, sub, gone)
      && LinksMoved(v.g, old(Now()).s, Now().s, parent.cluster, ClusterOf(sub), gone)
    }

    /** Then there is still one node a directory. */
    twostate lemma ChartKept(parent: Node, new sub: Node?, new gone: set<nat>)
      requires Changed(parent, sub, gone)
      ensures Shaped() && Charted()
    {
      hide Mirrors, DirLink, OwnName, Changed, Now, Lists, Sub;
      HeadsKept(parent, sub, gone);
      NodesKept(parent, sub, gone);
      OldChildrenKept(parent, sub, gone);
      NewChildrenKept(parent, sub, gone);
    }

    /** After a call that neither made nor lost a directory. */
    twostate lemma ChartSame(parent: Node)
      requires old(Valid()) && old(Holds(parent)) && Shaped() && Mirrors(v.g, root, Now()) && Holds(parent)
      requires nodes == old(nodes) && old(repr) <= repr && OneList(parent, old(repr))
      requires forall c :: c in old(parent.children) ==> c in parent.children
      requires LinksMoved(v.g, old(Now()).s, Now().s, parent.cluster, {}, {})
      ensures Charted()
    {
      hide Mirrors, LinksMoved, Charted, Shaped, OneList, Lists, Now;
      assert nodes == old(nodes) - {};
      assert Changed(parent, null, {});
      ChartKept(parent, null, {});
    }

    /** After one that made the directory of `sub`. */
    twostate lemma ChartMade(parent: Node, new sub: Node)
      requires old(Valid()) && old(Holds(parent)) && Shaped() && Mirrors(v.g, root, Now()) && Holds(parent)
      requires nodes == old(nodes)[sub.cluster := sub] && old(repr) <= repr && OneList(parent, old(repr))
      requires forall c :: c in old(parent.children) ==> c in parent.children
      requires sub.cluster !in old(dirs) && sub in parent.children && Sub(sub) && fresh(sub)
      requires LinksMoved(v.g, old(Now()).s, Now().s, parent.cluster, {sub.cluster}, {})
      ensures Charted()
    {
      hide Mirrors, LinksMoved, Charted, Shaped, OneList, Lists, Now, Sub;
      assert old(nodes) - {} == old(nodes);
      assert Changed(parent, sub, {});
      ChartKept(parent, sub, {});
    }

    /** After one that lost the directory `gone`, if it was one. */
    twostate lemma ChartLost(parent: Node, new gone: nat)
      requires old(Valid()) && old(Holds(parent)) && Shaped() && Mirrors(v.g, root, Now()) && Holds(parent)
      requires nodes == old(nodes) - {gone} && old(repr) <= repr && OneList(parent, old(repr))
      requires forall c :: c in old(parent.children) && old(Sub(c)) && old(c.cluster) != gone ==> c in parent.children
      requires LinksMoved(v.g, old(Now()).s, Now().s, parent.cluster, {}, {gone})
      ensures Charted()
    {
      hide Mirrors, LinksMoved, Charted, Shaped, OneList, Lists, Now, Sub;
      assert Changed(parent, null, {gone});
      ChartKept(parent, null, {gone});
    }

    twostate lemma HeadsKept(parent: Node, new sub: Node?, new gone: set<nat>)
      requires Changed(parent, sub, gone)
      ensures Shaped()
      ensures forall h :: h in nodes ==> nodes[h].dir && (h != root ==> OwnName(nodes[h].name))
    {
      hide Mirrors, DirLink, OwnName, LinksMoved, Now, Lists;
      forall h | h in nodes
        ensures nodes[h].dir && (h != root ==> OwnName(nodes[h].name))
      {
        assert nodes[h] == sub || (h in old(nodes) && nodes[h] == old(nodes)[h]);
      }
    }

    twostate lemma NodesKept(parent: Node, new sub: Node?, new gone: set<nat>)
      requires Changed(parent, sub, gone)
      ensures Shaped()
      ensures forall q, h :: h in nodes && h != root && DirLink(v.g, Now().s, q, h) ==> q in nodes && nodes[h] in nodes[q].children
    {
      hide DirMirrored, DirLink, OwnName, Sound, Lists;
      AllLinksOnce(v.g, root, Now().s);
      AllLinksOnce(v.g, root, old(Now()).s);
      forall q, h | h in nodes && h != root && DirLink(v.g, Now().s, q, h)
        ensures q in nodes && nodes[h] in nodes[q].children
      {
        if DirLink(v.g, old(Now()).s, q, h) {
          assert q in old(nodes) && old(nodes)[h] in old(nodes[q].children);
        }
      }
    }

    twostate lemma OldChildrenKept(parent: Node, new sub: Node?, new gone: set<nat>)
      requires Changed(parent, sub, gone)
      ensures Shaped()
      ensures forall h, c :: h in nodes && c in nodes[h].children && Sub(c) && h in old(nodes) && c in old(nodes[h].children) ==>
                if c.cluster in nodes then nodes[c.cluster] == c else c.children == []
    {
      hide DirMirrored, DirLink, OwnName, Sound, Now, Lists;
      LinksNow();
      LinksBefore();
      AllLinksOnce(v.g, root, old(Now()).s);
      forall h, c | h in nodes && c in nodes[h].children && Sub(c) && h in old(nodes) && c in old(nodes[h].children)
        ensures if c.cluster in nodes then nodes[c.cluster] == c else c.children == []
      {
        assert DirLink(v.g, Now().s, h, c.cluster) && DirLink(v.g, old(Now()).s, h, c.cluster);
      }
    }

    twostate lemma NewChildrenKept(parent: Node, new sub: Node?, new gone: set<nat>)
      requires Changed(parent, sub, gone)
      ensures Shaped()
      ensures forall h, c :: h in nodes && c in nodes[h].children && Sub(c) && !(h in old(nodes) && c in old(nodes[h].children)) ==>
                if c.cluster in nodes then nodes[c.cluster] == c else c.children == []
    {
      hide Mirrors, DirLink, OwnName, Now, Lists, LinksMoved;
      forall h, c | h in nodes && c in nodes[h].children && Sub(c) && !(h in old(nodes) && c in old(nodes[h].children))
        ensures if c.cluster in nodes then nodes[c.cluster] == c else c.children == []
      {
        assert nodes[h] == parent;
        NewChildKept(parent, sub, gone, c);
      }
    }

    twostate lemma NewChildKept(parent: Node, new sub: Node?, new gone: set<nat>, new c: Node)
      requires Changed(parent, sub, gone) && c in parent.children && c !in old(parent.children) && Sub(c)
      ensures Shaped() && if c.cluster in nodes then nodes[c.cluster] == c else c.children == []
    {
      hide DirMirrored, DirLink, OwnName, Sound, Now, Lists;
      LinksNow();
      AllLinksOnce(v.g, root, Now().s);
      var h, k := parent.cluster, c.cluster;
      assert nodes[h] == parent && DirLink(v.g, Now().s, h, k);
      if sub != null && k == sub.cluster {
        SameChild(h, c, sub);
      } else if k in nodes {
        var d := old(nodes)[k];
        assert d in old(parent.children);
        SameChild(h, c, d);
      }
    }

    method CreateOnly(parent: Node, name: Name) returns (node: Node?, ghost loaded: seq<Child>)
      requires Ready(parent)
      modifies v`disk, v`chains, parent`children, parent.children`size
      ensures v.Valid() && OneList(parent, repr) && forall c :: c in old(parent.children) ==> c in parent.children
      ensures node != null ==> node in parent.children && node.name == name && !node.dir && node.size == 0
      ensures CreateOutcome(v.g, old(v.disk), old(v.chains), v.disk, v.chains, parent.cluster, name, if parent.cluster == root then 0 else parent.cluster,
                            old(Views(parent.children)), loaded, Views(parent.children), node != null)
    {
      hide CreateOutcome, WellFormed, FatOf, Opens, SyncedExactlyIf, CreateFits, Node.View, Views, Shaped, Lists, Proper, Holds;
      node, loaded := VfsCreate(v, parent, name, parent.cluster == root);
    }

    method CreateHere(parent: Node, name: Name) returns (node: Node?, ghost loaded: seq<Child>)
      requires Ready(parent)
      modifies this`repr, v`disk, v`chains, parent`children, parent.children`size
      ensures Shaped() && v.Valid() && dirs == old(dirs) && stale == old(stale) && nodes == old(nodes) && fresh(repr - old(repr))
      ensures Lists() == old(Lists())[parent.cluster := Views(parent.children)]
      ensures old(repr) <= repr && OneList(parent, old(repr)) && forall c :: c in old(parent.children) ==> c in parent.children
      ensures node != null ==> node in parent.children && node.name == name && !node.dir && node.size == 0
      ensures CreateOutcome(v.g, old(v.disk), old(v.chains), v.disk, v.chains, parent.cluster, name, if parent.cluster == root then 0 else parent.cluster,
                            old(Views(parent.children)), loaded, Views(parent.children), node != null)
    {
      hide CreateOutcome, WellFormed, FatOf, Node.View, Views, Shaped, Lists, OneList;
      node, loaded := CreateOnly(parent, name);
      repr := repr + set c | c in parent.children;
      OnlyOneList(parent);
    }

    /** vfs_create in the directory of `parent`. */
    method Create(parent: Node, name: Name) returns (node: Node?, ghost ev: Event)
      requires Valid() && Holds(parent)
      modifies this`stale, this`repr, v`disk, v`chains, parent`children, parent.children`size
      ensures Shaped() && Happens(v.g, old(Now()), ev, Now()) && (Valid() <==> NameFits(ev))
      ensures ev.Create? && ev.p == parent.cluster && ev.name == name && ev.ok == (node != null)
      ensures Valid() <==> old(Taken(v.g, Now().s, parent.cluster, name, false))
                           || (node != null ==> RoundTrips(name) && !old(Taken(v.g, Now().s, parent.cluster, name, true)))
      ensures Holds(parent) && nodes == old(nodes) && fresh(repr - old(repr))
      ensures node != null ==> node in parent.children && node.name == name && !node.dir && node.size == 0
    {
      hide Mirrors, CreateOutcome, WellFormed, FatOf, StaleCreated, NameFits, Happens, At, Shaped, Taken, RoundTrips,
           LinksMoved, Charted, OneList, Lists, Views;
      DirReady(parent);
      ghost var m, p := Now(), parent.cluster;
      ghost var loaded;
      node, loaded := CreateHere(parent, name);
      stale := StaleCreated(v.g, m, p, name, loaded);
      ghost var up := if p == root then 0 else p;
      ev := FatMount.Create(p, name, up, loaded, node != null);
      CreateIs(v.g, m, p, name, up, loaded, node != null, v.disk, v.chains, Views(parent.children));
      EventMirrors(v.g, root, m, ev, Now());
      CreateFitsBefore(v.g, root, m, ev, Now());
      if NameFits(ev) {
        LinksMovedBy(v.g, root, m, ev, Now());
        ChartSame(parent);
      }
    }

    method MkdirOnly(parent: Node, name: Name) returns (node: Node?, ghost loaded: seq<Child>)
      requires Ready(parent)
      modifies v`disk, v`chains, parent`children
      ensures v.Valid() && OneList(parent, repr) && forall c :: c in old(parent.children) ==> c in parent.children
      ensures MkdirOutcome(v.g, old(v.disk), old(v.chains), v.disk, v.chains, parent.cluster, name, if parent.cluster == root then 0 else parent.cluster,
                           old(Views(parent.children)), loaded, Views(parent.children), node != null)
      ensures node != null ==> fresh(node) && node.dir && node.name == name && node.children == []
      ensures node != null ==> parent.children != [] && node == parent.children[0]
    {
      hide MkdirOutcome, WellFormed, FatOf, SyncedExactlyIf, Node.View, Views, Shaped, Lists, Proper, Holds;
      node, loaded := VfsMkdir(v, parent, name, parent.cluster == root);
    }

    method MkdirHere(parent: Node, name: Name) returns (node: Node?, ghost loaded: seq<Child>)
      requires Ready(parent)
      modifies this`repr, v`disk, v`chains, parent`children
      ensures Shaped() && v.Valid() && dirs == old(dirs) && nodes == old(nodes) && stale == old(stale) && fresh(repr - old(repr))
      ensures Lists() == old(Lists())[parent.cluster := Views(parent.children)]
      ensures old(repr) <= repr && OneList(parent, old(repr)) && forall c :: c in old(parent.children) ==> c in parent.children
      ensures MkdirOutcome(v.g, old(v.disk), old(v.chains), v.disk, v.chains, parent.cluster, name, if parent.cluster == root then 0 else parent.cluster,
                           old(Views(parent.children)), loaded, Views(parent.children), node != null)
      ensures node != null ==> fresh(node) && node.dir && node.name == name && node.children == [] && node in repr
      ensures node != null ==> parent.children != [] && node == parent.children[0]
    {
      hide MkdirOutcome, WellFormed, FatOf, Node.View, Views, Shaped, Lists, OneList;
      node, loaded := MkdirOnly(parent, name);
      repr := repr + set c | c in parent.children;
      OnlyOneList(parent);
    }

    /** A node for a directory that had none before. */
    twostate lemma Entered(node: Node)
      requires old(Shaped()) && node.cluster !in old(nodes) && node.children == [] && node in repr
      requires nodes == old(nodes)[node.cluster := node] && dirs == old(dirs) + {node.cluster} && repr == old(repr)
      requires forall n :: n in repr ==> n.children == old(n.children) && n.cluster == old(n.cluster) && n.View() == old(n.View())
      ensures Shaped() && Lists() == old(Lists())[node.cluster := []]
    {
      forall h | h in old(nodes)
        ensures h != node.cluster && Proper(nodes[h]) && Views(nodes[h].children) == old(Views(nodes[h].children))
      {
        assert old(Proper(nodes[h]));
      }
    }

    /** A directory and its node no longer known. */
    twostate lemma Forgotten(c: nat)
      requires old(Shaped()) && nodes == old(nodes) - {c} && dirs == old(dirs) - {c} && repr == old(repr)
      requires forall n :: n in repr ==> n.children == old(n.children) && n.cluster == old(n.cluster) && n.View() == old(n.View())
      ensures Shaped() && Lists() == old(Lists()) - {c}
    {
      forall h | h in nodes
        ensures Proper(nodes[h]) && Views(nodes[h].children) == old(Views(nodes[h].children))
      {
        assert old(Proper(nodes[h]));
      }
    }

    ghost method Forget(c: nat, was: map<nat, set<nat>>)
      requires Shaped()
      modifies this`nodes, this`dirs, this`stale
      ensures Shaped() && Lists() == old(Lists()) - {c} && dirs == old(dirs) - {c} && stale == was - {c}
      ensures nodes == old(nodes) - {c}
    {
      nodes, dirs, stale := nodes - {c}, dirs - {c}, was - {c};
      Forgotten(c);
    }

    ghost method Enter(node: Node)
      requires Shaped() && node.cluster !in dirs && node.children == [] && node in repr
      modifies this`nodes, this`dirs, this`stale
      ensures Shaped() && Lists() == old(Lists())[node.cluster := []] && dirs == old(dirs) + {node.cluster}
      ensures stale == old(stale)[node.cluster := {}] && nodes == old(nodes)[node.cluster := node]
    {
      nodes, dirs, stale := nodes[node.cluster := node], dirs + {node.cluster}, stale[node.cluster := {}];
      Entered(node);
    }

    /** A listed directory is entered for the first time, as a path lookup does; nothing else is different. */
    ghost method Visit(parent: Node, node: Node)
      requires Valid() && Holds(parent) && node in parent.children && Sub(node) && node.cluster !in nodes
      modifies this`nodes
      ensures Valid() && Holds(parent) && Holds(node) && Now() == old(Now())
      ensures nodes == old(nodes)[node.cluster := node]
    {
      hide Mirrors, OwnName, WellFormed, FatOf, DirLink;
      HeldInside(parent);
      LinksNow();
      AllLinksListed(v.g, root, Now());
      assert node.children == [];
      nodes := nodes[node.cluster := node];
      Visited(parent, node);
    }

    twostate lemma Visited(parent: Node, new node: Node)
      requires old(Valid()) && old(Holds(parent)) && Holds(parent) && repr == old(repr) && dirs == old(dirs) && stale == old(stale)
      requires node in parent.children && Sub(node) && node.cluster !in old(nodes) && node.cluster in dirs && node.children == []
      requires nodes == old(nodes)[node.cluster := node] && v.disk == old(v.disk) && v.chains == old(v.chains)
      requires forall n :: n in old(repr) ==> n.children == old(n.children) && n.cluster == old(n.cluster) && n.View() == old(n.View()) && n.dir == old(n.dir) && n.name == old(n.name)
      ensures Shaped() && Now() == old(Now()) && Charted()
    {
      hide Mirrors, OwnName, WellFormed, FatOf, DirLink, Charted;
      Entered(node);
      assert old(Lists())[node.cluster := []] == old(Lists());
      ChartVisited(parent, node);
    }

    twostate lemma ChartVisited(parent: Node, new node: Node)
      requires old(Valid()) && old(Holds(parent)) && Shaped() && Now() == old(Now()) && repr == old(repr)
      requires node in parent.children && Sub(node) && node.cluster !in old(nodes) && node.children == [] && Holds(parent)
      requires nodes == old(nodes)[node.cluster := node]
      requires forall n :: n in repr ==> n.children == old(n.children) && n.cluster == old(n.cluster) && n.View() == old(n.View()) && n.dir == old(n.dir) && n.name == old(n.name)
      ensures Charted()
    {
      hide Mirrors, OwnName, WellFormed, FatOf, DirLink, Lists, Node.View, Now, Views;
      VisitedLinks(parent, node);
      forall h, c | h in nodes && c in nodes[h].children && Sub(c)
        ensures if c.cluster in nodes then nodes[c.cluster] == c else c.children == []
      {
        assert h in old(nodes) && c in repr;
      }
    }

    /** No other list has a child for the directory of `node`, and no other directory an entry. */
    lemma VisitedLinks(parent: Node, node: Node)
      requires Shaped() && Mirrors(v.g, root, Now()) && Holds(parent) && node in parent.children && Sub(node)
      ensures forall h, c :: h in nodes && c in nodes[h].children && Sub(c) && c.cluster == node.cluster ==> c == node
      ensures forall q :: DirLink(v.g, Now().s, q, node.cluster) ==> q == parent.cluster
    {
      hide DirMirrored, Sound, OwnName, WellFormed, FatOf, DirLink, Lists, Node.View, Now, Views;
      LinksNow();
      AllLinksOnce(v.g, root, Now().s);
      forall h, c | h in nodes && c in nodes[h].children && Sub(c) && c.cluster == node.cluster
        ensures c == node
      {
        assert DirLink(v.g, Now().s, h, c.cluster) && DirLink(v.g, Now().s, parent.cluster, node.cluster);
        SameChild(h, c, node);
      }
    }

    /** vfs_mkdir in the directory of `parent`. */
    method Mkdir(parent: Node, name: Name) returns (node: Node?, ghost ev: Event)
      requires Valid() && Holds(parent)
      modifies this`stale, this`repr, this`nodes, this`dirs, v`disk, v`chains, parent`children
      ensures Shaped() && Happens(v.g, old(Now()), ev, Now()) && (Valid() <==> NameFits(ev))
      ensures ev.Mkdir? && ev.p == parent.cluster && ev.name == name && ev.ok == (node != null)
      ensures Valid() <==> node != null ==> RoundTrips(name)
      ensures node != null ==> forall n, dir :: OwnName(n) ==> !Taken(v.g, Now().s, node.cluster, n, dir)
      ensures Holds(parent) && fresh(repr - old(repr))
      ensures nodes == if node == null then old(nodes) else old(nodes)[node.cluster := node]
      ensures node != null ==> node.cluster !in old(dirs) && fresh(node) && Holds(node)
      ensures node != null && RoundTrips(name) ==> Taken(v.g, Now().s, parent.cluster, name, true) && !Taken(v.g, Now().s, parent.cluster, name, false)
    {
      hide Mirrors, MkdirOutcome, WellFormed, FatOf, Happens, At, Shaped, RoundTrips, Taken, OwnName, LinksMoved, Charted, OneList, Lists;
      DirReady(parent);
      ghost var m, p := Now(), parent.cluster;
      ghost var loaded;
      node, loaded := MkdirHere(parent, name);
      ghost var up := if p == root then 0 else p;
      ev := FatMount.Mkdir(p, name, up, loaded, node != null);
      MkdirIs(v.g, root, m, p, name, up, loaded, node != null, v.disk, v.chains, Views(parent.children));
      if node != null {
        assert Views(parent.children)[0] == node.View();
        Enter(node);
        assert Now().lists[p][0].entry.cluster == node.cluster;
        forall n, dir | OwnName(n)
          ensures !Taken(v.g, Now().s, node.cluster, n, dir)
        {
          NewDirectoryFree(v.g, root, m, ev, Now(), n, dir);
        }
      }
      EventMirrors(v.g, root, m, ev, Now());
      LinksMovedBy(v.g, root, m, ev, Now());
      if node == null {
        ChartSame(parent);
      } else if RoundTrips(name) {
        RoundTripsIsOwn(name);
        ChartMade(parent, node);
        MadeTaken(v.g, root, m, ev, Now());
      }
    }

    method UnlinkOnly(parent: Node, name: Name) returns (ret: int, ghost loaded: seq<Child>, ghost k: nat)
      requires Ready(parent) && (To83(name).Some? ==> Deletable(v.g, v.disk, v.chains, parent.cluster, To83(name).value))
      modifies v`disk, v`chains, parent`children
      ensures v.Valid() && OneList(parent, repr) && (ret == 0 || ret == -1)
      ensures forall c :: c in old(parent.children) && (ret == -1 || c.name != name) ==> c in parent.children
      ensures UnlinkOutcome(v.g, old(v.disk), old(v.chains), v.disk, v.chains, parent.cluster, name,
                            old(Views(parent.children)), loaded, Views(parent.children), ret == 0, k)
    {
      hide UnlinkOutcome, WellFormed, FatOf, SyncedExactlyIf, To83, Deletable, Node.View, Views, Shaped, Lists, Proper, Holds;
      ret, loaded, k := VfsUnlink(v, parent, name);
    }

    method UnlinkHere(parent: Node, name: Name) returns (ret: int, ghost loaded: seq<Child>, ghost k: nat)
      requires Ready(parent) && (To83(name).Some? ==> Deletable(v.g, v.disk, v.chains, parent.cluster, To83(name).value))
      modifies this`repr, v`disk, v`chains, parent`children
      ensures Shaped() && v.Valid() && dirs == old(dirs) && nodes == old(nodes) && stale == old(stale) && (ret == 0 || ret == -1)
      ensures fresh(repr - old(repr))
      ensures old(repr) <= repr && OneList(parent, old(repr)) && forall c :: c in old(parent.children) && (ret == -1 || c.name != name) ==> c in parent.children
      ensures Lists() == old(Lists())[parent.cluster := Views(parent.children)]
      ensures UnlinkOutcome(v.g, old(v.disk), old(v.chains), v.disk, v.chains, parent.cluster, name,
                            old(Views(parent.children)), loaded, Views(parent.children), ret == 0, k)
    {
      hide UnlinkOutcome, WellFormed, FatOf, To83, Deletable, Node.View, Views, Shaped, Lists, OneList;
      ret, loaded, k := UnlinkOnly(parent, name);
      repr := repr + set c | c in parent.children;
      OnlyOneList(parent);
    }

    /** vfs_unlink in the directory of `parent`. */
    method Unlink(parent: Node, name: Name) returns (ret: int, ghost ev: Event, ghost gone: nat)
      requires Valid() && Holds(parent)
      modifies this`stale, this`repr, this`nodes, this`dirs, v`disk, v`chains, parent`children
      ensures Shaped() && Happens(v.g, old(Now()), ev, Now()) && (Valid() <==> NameFits(ev))
      ensures ev.Unlink? && ev.p == parent.cluster && ev.name == name && ev.ok == (ret == 0)
      ensures Valid() <==> ret == 0 ==> RoundTrips(name)
      ensures Holds(parent) && fresh(repr - old(repr))
      ensures ret == 0 ==> gone in old(v.chains) && v.chains == old(v.chains) - {gone} && nodes == old(nodes) - {gone} && gone != parent.cluster
      ensures ret != 0 ==> v.chains == old(v.chains) && nodes == old(nodes)
    {
      hide Mirrors, UnlinkOutcome, WellFormed, FatOf, RoundTrips, Happens, Shaped, To83, Deletable, Gone, DirContent, OwnName, HasPlace,
           LinksMoved, Charted, OneList, Lists;
      DirReady(parent);
      ghost var m, p, kids := Now(), parent.cluster, parent.children;
      CallsAllowed(v.g, root, m, p, name, 0);
      ghost var loaded, k;
      ret, loaded, k := UnlinkHere(parent, name);
      ev := FatMount.Unlink(p, name, loaded, ret == 0, k);
      UnlinkIs(v.g, root, m, p, name, loaded, ret == 0, k, v.disk, v.chains, Views(parent.children));
      gone := 0;
      if ret == 0 {
        gone := Gone(v.g, m.s, p, k);
        Forget(gone, stale[p := stale[p] - {k}]);
      }
      EventMirrors(v.g, root, m, ev, Now());
      LinksMovedBy(v.g, root, m, ev, Now());
      if ret != 0 {
        ChartSame(parent);
      } else if RoundTrips(name) {
        forall c | c in old(parent.children) && old(c.cluster) != gone
          ensures c in parent.children
        {
          var i: nat :| i < |kids| && kids[i] == c;
          assert m.lists[p][i] == old(c.View());
          if old(c.name) == name {
            UnlinkedChild(v.g, root, m, ev, Now(), i);
          }
        }
        ChartLost(parent, gone);
      }
    }

    method LoadOnly(parent: Node)
      requires Ready(parent)
      modifies parent`children
      ensures v.Valid() && OneList(parent, repr) && forall c :: c in old(parent.children) ==> c in parent.children
      ensures Loaded(v.g, v.disk, v.chains, parent.cluster, old(Views(parent.children)), Views(parent.children))
    {
      hide Loaded, WellFormed, FatOf, Node.View, Views, Shaped, Lists, Proper, Holds;
      LoadIfEmpty(v, parent);
    }

    method LoadHere(parent: Node)
      requires Ready(parent)
      modifies this`repr, parent`children
      ensures Shaped() && v.Valid() && dirs == old(dirs) && stale == old(stale) && nodes == old(nodes) && fresh(repr - old(repr))
      ensures Lists() == old(Lists())[parent.cluster := Views(parent.children)]
      ensures old(repr) <= repr && OneList(parent, old(repr)) && forall c :: c in old(parent.children) ==> c in parent.children
      ensures Loaded(v.g, v.disk, v.chains, parent.cluster, old(Views(parent.children)), Views(parent.children))
    {
      hide Loaded, WellFormed, FatOf, Node.View, Views, Shaped, Lists, OneList;
      LoadOnly(parent);
      repr := repr + set c | c in parent.children;
      OnlyOneList(parent);
    }

    /** The load in front of a listing or a path lookup. */
    method Load(parent: Node)
      requires Valid() && Holds(parent)
      modifies this`repr, parent`children
      ensures Valid() && Shaped() && Happens(v.g, old(Now()), FatMount.Load(parent.cluster), Now())
      ensures Now().s == old(Now()).s && stale == old(stale) && nodes == old(nodes) && Holds(parent) && old(repr) <= repr && fresh(repr - old(repr))
      ensures Tracked(v.g, v.disk, v.chains, parent.cluster, Views(parent.children))
    {
      hide Mirrors, Loaded, WellFormed, FatOf, Happens, At, LinksMoved, Charted, OneList, Shaped, Lists, Tracked;
      DirReady(parent);
      LoadTracked(v.g, root, Now(), parent.cluster);
      ghost var m, p := Now(), parent.cluster;
      LoadHere(parent);
      LoadIs(v.g, m, p, Views(parent.children));
      EventMirrors(v.g, root, m, FatMount.Load(p), Now());
      LinksMovedBy(v.g, root, m, FatMount.Load(p), Now());
      ChartSame(parent);
    }

    /** One level of a lookup: the directory is loaded and the first name of the path looked for in it. */
    method LookUp(curr: Node, name: Name, ghost path: seq<Name>) returns (child: Node?)
      requires Valid() && Holds(curr) && curr.dir && OwnName(name) && path != [] && path[0] == name
      modifies this`repr, this`nodes, curr`children
      ensures Valid() && Now().s == old(Now()).s && stale == old(stale) && old(repr) <= repr && fresh(repr - old(repr))
      ensures forall h :: h in old(nodes) ==> h in nodes && nodes[h] == old(nodes)[h]
      ensures child != null ==> child in repr && (child.dir ==> Holds(child))
      ensures child == null ==> forall to :: !Walks(v.g, old(Now()).s, Place(curr.cluster, true), path, to)
      ensures child != null ==> forall to :: Walks(v.g, old(Now()).s, Place(curr.cluster, true), path, to) <==>
                                             Walks(v.g, old(Now()).s, Place(child.cluster, child.dir), path[1..], to)
    {
      hide Mirrors, OwnName, Walks, Shaped, Charted, Lists, Tracked, Orderly, Happens, Names, Proper;
      Load(curr);
      HeldInside(curr);
      ghost var s := Now().s;
      var found, j := FindChild(curr.children, name);
      if !found {
        NotNamed(v.g, s, curr.cluster, Views(curr.children), name);
        WalksNowhere(v.g, s, Place(curr.cluster, true), path);
        return null;
      }
      child := curr.children[j];
      StepDown(curr, child, j, path, s);
    }

    /** vfs_resolve from a directory on, for names other than "." and "..": it finds a node exactly if the path leads
        somewhere on disk, and then one that says where; a directory's is the one node kept for it. */
    method Resolve(start: Node, parts: seq<Name>) returns (node: Node?)
      requires Valid() && Holds(start) && forall i :: 0 <= i < |parts| ==> OwnName(parts[i])
      modifies this`repr, this`nodes, repr`children
      ensures Valid() && Now().s == old(Now()).s && stale == old(stale) && old(repr) <= repr && fresh(repr - old(repr))
      ensures forall h :: h in old(nodes) ==> h in nodes && nodes[h] == old(nodes)[h]
      ensures node != null ==> node in repr && (node.dir ==> Holds(node))
      ensures node != null ==> Walks(v.g, Now().s, Place(start.cluster, true), parts, Place(node.cluster, node.dir))
      ensures node == null ==> forall to :: !Walks(v.g, Now().s, Place(start.cluster, true), parts, to)
    {
      hide Mirrors, OwnName, Walks, Shaped, Charted, Lists, Tracked, Orderly;
      HeldInside(start);
      StartsAsDirectory(start);
      assert parts[0..] == parts;
      ghost var s := Now().s;
      var curr, i := start, 0;
      while i < |parts|
        invariant 0 <= i <= |parts| && Valid() && Shaped() && Now().s == s && stale == old(stale) && old(repr) <= repr && fresh(repr - old(repr))
        invariant forall h :: h in old(nodes) ==> h in nodes && nodes[h] == old(nodes)[h]
        invariant curr in repr && (curr.dir ==> Holds(curr))
        invariant forall to :: Walks(v.g, s, Place(start.cluster, true), parts, to) <==> Walks(v.g, s, Place(curr.cluster, curr.dir), parts[i..], to)
      {
        ghost var rest, at := parts[i..], Place(curr.cluster, curr.dir);
        assert rest != [] && rest[0] == parts[i] && rest[1..] == parts[i + 1..];
        if !curr.dir {
          WalksNowhere(v.g, s, at, rest);
          return null;
        }
        var child := LookUp(curr, parts[i], rest);
        if child == null {
          assert at == Place(curr.cluster, true) && forall to :: !Walks(v.g, s, at, rest, to);
          return null;
        }
        curr, i := child, i + 1;
      }
      assert parts[i..] == [];
      WalksThere(v.g, s, Place(curr.cluster, curr.dir));
      node := curr;
    }

    lemma StartsAsDirectory(start: Node)
      requires Valid() && Holds(start)
      ensures start.dir
    {
    }

    /** The child found stands for the entry found; if it is a directory it is the node kept for it from here on. */
    ghost method StepDown(curr: Node, child: Node, j: nat, rest: seq<Name>, s: State)
      requires Valid() && Holds(curr) && curr.dir && j < |curr.children| && child == curr.children[j] && s == Now().s
      requires rest != [] && child.name == rest[0] && OwnName(child.name)
      requires Tracked(v.g, v.disk, v.chains, curr.cluster, Views(curr.children))
      modifies this`nodes
      ensures Valid() && Shaped() && Now() == old(Now()) && child in repr && (child.dir ==> Holds(child))
      ensures forall h :: h in old(nodes) ==> h in nodes && nodes[h] == old(nodes)[h]
      ensures forall to :: Walks(v.g, s, Place(curr.cluster, curr.dir), rest, to) <==> Walks(v.g, s, Place(child.cluster, child.dir), rest[1..], to)
    {
      hide Mirrors, OwnName, Walks, Lists, Tracked, Orderly, DirLink;
      HeldInside(curr);
      assert Views(curr.children)[j] == child.View();
      ChildNamed(v.g, s, curr.cluster, Views(curr.children), j);
      WalksOn(v.g, s, Place(curr.cluster, true), rest, OnDisk(v.g, s, curr.cluster, Views(curr.children), j));
      if child.dir && child.cluster !in nodes {
        Visit(curr, child);
      }
    }

    method WriteHere(parent: Node, node: Node, ghost n: nat, offset: nat, data: seq<byte>) returns (done: nat)
      requires Ready(parent) && n < |parent.children| && node == parent.children[n]
      requires Tracked(v.g, v.disk, v.chains, parent.cluster, Views(parent.children))
      requires node.cluster in v.chains && node.cluster != parent.cluster
      requires node.size < 0x1_0000_0000 && node.cluster < 0x1_0000_0000 && node.dirLba != 0
      modifies v`disk, v`chains, node`size
      ensures Shaped() && v.Valid() && dirs == old(dirs) && nodes == old(nodes) && stale == old(stale)
      ensures old(repr) <= repr && OneList(parent, old(repr)) && parent.children == old(parent.children)
      ensures Lists() == old(Lists())[parent.cluster := WithSize(old(Views(parent.children)), n, node.size)]
      ensures FileWritten(v.g, old(v.disk), old(v.chains), v.disk, v.chains, node.cluster, offset, data, done)
      ensures EntryUpdated(v.g, old(v.disk), v.disk, v.chains, node.cluster, 0 < done == |data|, parent.cluster, node.slot, node.size)
      ensures node.size == if 0 < done == |data| then GrownSize(old(node.size), offset, |data|) else old(node.size)
      ensures done == |data| <==> Affordable(v.g, old(v.disk), old(v.chains), node.cluster, offset, |data|)
    {
      hide FileWritten, EntryUpdated, WellFormed, FatOf, Affordable, Tracked, InStep, GrownSize, Lists, Proper;
      done := WriteChild(v, parent, node, n, offset, data);
      assert repr == repr + set c | c in parent.children;
      OnlyOneList(parent);
    }

    /** vfs_write to the file listed at place `n`. */
    method Write(parent: Node, node: Node, ghost n: nat, offset: nat, data: seq<byte>) returns (done: nat)
      requires Valid() && Holds(parent) && n < |parent.children| && node == parent.children[n]
      requires !node.dir && OwnName(node.name) && node.size < 0x1_0000_0000
      modifies this`stale, v`disk, v`chains, node`size
      ensures Valid() && Shaped() && Holds(parent) && Happens(v.g, old(Now()), FatMount.Write(parent.cluster, n, offset, data, done), Now())
      ensures repr == old(repr) && node.cluster in old(v.chains) && v.g.Holds(old(v.disk))
      ensures done == |data| <==> Affordable(v.g, old(v.disk), old(v.chains), node.cluster, offset, |data|)
    {
      hide Mirrors, FileWritten, EntryUpdated, WellFormed, FatOf, Happens, At, Shaped, Affordable, Tracked, OwnName, GrownSize, HasPlace,
           LinksMoved, Charted, OneList, Lists;
      DirReady(parent);
      ghost var m, p := Now(), parent.cluster;
      CallsAllowed(v.g, root, m, p, [], n);
      ListTracked(v.g, root, m, p);
      done := WriteHere(parent, node, n, offset, data);
      stale := stale[p := if 0 < done == |data| then stale[p] - {node.slot} else stale[p]];
      WriteIs(v.g, m, p, n, offset, data, done, v.disk, v.chains);
      EventMirrors(v.g, root, m, FatMount.Write(p, n, offset, data, done), Now());
      LinksMovedBy(v.g, root, m, FatMount.Write(p, n, offset, data, done), Now());
      ChartSame(parent);
    }
  }

  /** A directory is made and its name created: if both succeed, the directory has two entries of one name and the mount is
      no longer in order. */
  method MadeTwice(m: Mount, d: Node, a: Name) returns (sub: Node?, file: Node?)
    requires m.Valid() && m.Holds(d) && RoundTrips(a)
    modifies m, m.v, m.repr
    ensures sub != null && file != null ==> !m.Valid()
  {
    hide Mirrors, Happens, RoundTrips, Taken, NameFits, OwnName, Mount.Shaped, Mount.Valid;
    m.HeldInside(d);
    ghost var ev;
    sub, ev := m.Mkdir(d, a);
    file := null;
    if sub != null {
      m.HeldInside(d);
      file, ev := m.Create(d, a);
    }
  }

  /** Calls follow one another: a load, a new file and its data, a new directory, a file in it, and the first file deleted
      again. With names that round-trip, and no directory of the first one, they are a run and everything is in order
      behind it. */
  method Session(m: Mount, d: Node, a: Name, b: Name, c: Name, data: seq<byte>) returns (ghost states: seq<Mounted>, ghost evs: seq<Event>)
    requires m.Valid() && m.Holds(d) && RoundTrips(a) && RoundTrips(b) && RoundTrips(c)
    requires !Taken(m.v.g, m.Now().s, d.cluster, a, true)
    modifies m, m.v, m.repr
    ensures m.Valid() && m.Holds(d) && fresh(m.repr - old(m.repr))
    ensures |evs| >= 4 && Leads(m.v.g, states, evs, old(m.Now()), m.Now())
  {
    hide Mirrors, Happens, RoundTrips, Taken, NameFits, OwnName, Leads, Tracked, Views, Mount.Shaped, Mount.Valid, Mount.Holds;
    m.HeldInside(d);
    LeadsNowhere(m.v.g, m.Now());
    states, evs := [m.Now()], [];
    m.Load(d);
    m.HeldInside(d);
    LeadsOn(m.v.g, states, evs, old(m.Now()), old(m.Now()), FatMount.Load(d.cluster), m.Now());
    states, evs := states + [m.Now()], evs + [FatMount.Load(d.cluster)];
    states, evs := MakeFile(m, d, a, data, states, evs, old(m.Now()));
    states, evs := MakeDirectory(m, d, a, b, c, states, evs, old(m.Now()));
  }

  /** A file and its data, as the next calls of a run. */
  method MakeFile(m: Mount, d: Node, a: Name, data: seq<byte>, ghost was: seq<Mounted>, ghost did: seq<Event>, ghost first: Mounted)
    returns (ghost states: seq<Mounted>, ghost evs: seq<Event>)
    requires m.Valid() && m.Holds(d) && RoundTrips(a)
    requires !Taken(m.v.g, m.Now().s, d.cluster, a, true) && Leads(m.v.g, was, did, first, m.Now())
    modifies m, m.v, m.repr
    ensures m.Valid() && m.Holds(d) && fresh(m.repr - old(m.repr))
    ensures |evs| >= |did| + 1 && Leads(m.v.g, states, evs, first, m.Now())
  {
    hide Mirrors, Happens, RoundTrips, Taken, NameFits, OwnName, Leads, Tracked, Views, Mount.Shaped, Mount.Valid, Mount.Holds;
    m.HeldInside(d);
    RoundTripsIsOwn(a);
    ghost var ev;
    ghost var last := m.Now();
    var file;
    file, ev := m.Create(d, a);
    LeadsOn(m.v.g, was, did, first, last, ev, m.Now());
    states, evs, last := was + [m.Now()], did + [ev], m.Now();
    if file != null {
      m.HeldInside(d);
      ghost var n :| 0 <= n < |d.children| && d.children[n] == file;
      var done := m.Write(d, file, n, 0, data);
      ev := FatMount.Write(d.cluster, n, 0, data, done);
      LeadsOn(m.v.g, states, evs, first, last, ev, m.Now());
      states, evs := states + [m.Now()], evs + [ev];
    }
  }

  /** A directory and a file in it; then the first file is deleted. */
  method MakeDirectory(m: Mount, d: Node, a: Name, b: Name, c: Name, ghost was: seq<Mounted>, ghost did: seq<Event>, ghost first: Mounted)
    returns (ghost states: seq<Mounted>, ghost evs: seq<Event>)
    requires m.Valid() && m.Holds(d) && RoundTrips(a) && RoundTrips(b) && RoundTrips(c) && Leads(m.v.g, was, did, first, m.Now())
    modifies m, m.v, m.repr
    ensures m.Valid() && m.Holds(d) && fresh(m.repr - old(m.repr))
    ensures |evs| >= |did| + 2 && Leads(m.v.g, states, evs, first, m.Now())
  {
    hide Mirrors, Happens, RoundTrips, Taken, NameFits, OwnName, Leads, Tracked, Views, Mount.Shaped, Mount.Valid, Mount.Holds;
    m.HeldInside(d);
    RoundTripsIsOwn(c);
    ghost var ev;
    ghost var last := m.Now();
    var sub;
    sub, ev := m.Mkdir(d, b);
    LeadsOn(m.v.g, was, did, first, last, ev, m.Now());
    states, evs := was + [m.Now()], did + [ev];
    states, evs := FillAndDrop(m, d, sub, a, c, states, evs, first);
  }

  method FillAndDrop(m: Mount, d: Node, sub: Node?, a: Name, c: Name, ghost was: seq<Mounted>, ghost did: seq<Event>, ghost first: Mounted)
    returns (ghost states: seq<Mounted>, ghost evs: seq<Event>)
    requires m.Valid() && m.Holds(d) && RoundTrips(a) && RoundTrips(c) && Leads(m.v.g, was, did, first, m.Now())
    requires sub != null ==> m.Holds(sub) && !Taken(m.v.g, m.Now().s, sub.cluster, c, true)
    modifies m, m.v, m.repr
    ensures m.Valid() && m.Holds(d) && fresh(m.repr - old(m.repr))
    ensures |evs| >= |did| + 1 && Leads(m.v.g, states, evs, first, m.Now())
  {
    hide Mirrors, Happens, RoundTrips, Taken, NameFits, OwnName, Leads, Tracked, Views, Mount.Shaped, Mount.Valid;
    m.HeldInside(d);
    ghost var ev, gone;
    ghost var last := m.Now();
    states, evs := was, did;
    if sub != null {
      m.HeldInside(sub);
      var inner;
      inner, ev := m.Create(sub, c);
      LeadsOn(m.v.g, states, evs, first, last, ev, m.Now());
      states, evs, last := states + [m.Now()], evs + [ev], m.Now();
    }
    m.HeldInside(d);
    var ret;
    ret, ev, gone := m.Unlink(d, a);
    LeadsOn(m.v.g, states, evs, first, last, ev, m.Now());
    states, evs := states + [m.Now()], evs + [ev];
  }
}
