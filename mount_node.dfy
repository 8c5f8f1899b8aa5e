// The magic-mount node tree of native/src/core/node.hpp. A directory keeps
// its children in an ordered map keyed by name; inserting under a taken name
// replaces the node only when the new node type outranks the old one, and
// the new node then takes over the old node's name, file type, parent and,
// between directories, its children.
//
// One class, Entry, carries the fields of node_entry and dir_node; the C++
// subclass of a node is recorded by its constant node-type bit.

module MountNode {

  // ---- Node-type bits, one per node class ----

  const TypeMirror: bv8 := 0x01
  const TypeInter: bv8 := 0x02
  const TypeTmpfs: bv8 := 0x04
  const TypeModule: bv8 := 0x08
  const TypeRoot: bv8 := 0x10
  const TypeCustom: bv8 := 0x20
  const TypeDir: bv8 := TypeInter | TypeTmpfs | TypeRoot

  /** The classes a query can name; type_id of any class without its own id (node_entry among them) is TypeCustom. */
  datatype NodeClass = NodeEntry | DirNode | InterNode | MirrorNode | TmpfsNode | ModuleNode | RootNode

  /** type_id<T>: one bit per concrete class; dir_node has the three directory bits. */
  function TypeId(c: NodeClass): (r: bv8)
    ensures c != DirNode ==> IsNodeType(r)
    ensures r & TypeDir != 0 <==> c in {DirNode, InterNode, TmpfsNode, RootNode}
  {
    match c
    case NodeEntry => TypeCustom
    case DirNode => TypeDir
    case InterNode => TypeInter
    case MirrorNode => TypeMirror
    case TmpfsNode => TypeTmpfs
    case ModuleNode => TypeModule
    case RootNode => TypeRoot
  }

  /** The node type of an object of a concrete class: exactly one bit. */
  predicate IsNodeType(t: bv8) {
    t == TypeMirror || t == TypeInter || t == TypeTmpfs || t == TypeModule || t == TypeRoot || t == TypeCustom
  }

  /** isa<T>: non-null and sharing a bit with type_id<T>. */
  predicate Isa(c: NodeClass, n: Entry?): (r: bool)
    ensures r ==> n != null
    ensures n != null && n.nodeType == TypeId(c) ==> r
  {
    n != null && n.nodeType & TypeId(c) != 0
  }

  /** dyn_cast<T>: the node itself when isa<T> holds, null otherwise. */
  function DynCast(c: NodeClass, n: Entry?): (r: Entry?)
    ensures r == null <==> !Isa(c, n)
    ensures r != null ==> r == n
  {
    if Isa(c, n) then n else null
  }

  /** For a node of a concrete class, isa<T> is class membership: a directory is an inter, tmpfs or root node, and isa<node_entry> holds only for custom nodes. */
  lemma IsaClasses(n: Entry)
    requires IsNodeType(n.nodeType)
    ensures Isa(DirNode, n) <==> n.nodeType in {TypeInter, TypeTmpfs, TypeRoot}
    ensures Isa(NodeEntry, n) <==> n.nodeType == TypeCustom
    ensures forall c :: c != DirNode && c != NodeEntry ==> (Isa(c, n) <==> n.nodeType == TypeId(c))
  {
  }

  /** The ranks that decide replacement, lowest first. */
  lemma Ranks()
    ensures TypeMirror < TypeInter < TypeTmpfs < TypeModule < TypeRoot < TypeCustom
    ensures TypeDir == 0x16
  {
  }

  // ---- The file-type byte ----

  /** d_type values of <dirent.h>. */
  const DtDir: bv8 := 4
  const DtReg: bv8 := 8
  const DtLnk: bv8 := 10

  /** Bits 0-3: the file type. */
  function FileTypeOf(ft: bv8): bv8 { ft & 0x0F }
  /** Bit 6: skip binding the mirror of this directory. */
  predicate SkipMirrorBit(ft: bv8) { ft & 0x40 != 0 }
  /** Bit 7: the node exists on the real file system. */
  predicate ExistBit(ft: bv8) { ft & 0x80 != 0 }

  function WithExist(ft: bv8, b: bool): bv8 { if b then ft | 0x80 else ft & 0x7F }
  function WithSkipMirror(ft: bv8, b: bool): bv8 { if b then ft | 0x40 else ft & 0xBF }

  /** set_exist changes bit 7 alone. */
  lemma WithExistOnlyBit7(ft: bv8, b: bool)
    ensures ExistBit(WithExist(ft, b)) == b
    ensures WithExist(ft, b) & 0x7F == ft & 0x7F
    ensures FileTypeOf(WithExist(ft, b)) == FileTypeOf(ft) && SkipMirrorBit(WithExist(ft, b)) == SkipMirrorBit(ft)
  {
  }

  /** set_skip_mirror changes bit 6 alone. */
  lemma WithSkipMirrorOnlyBit6(ft: bv8, b: bool)
    ensures SkipMirrorBit(WithSkipMirror(ft, b)) == b
    ensures WithSkipMirror(ft, b) & 0xBF == ft & 0xBF
    ensures FileTypeOf(WithSkipMirror(ft, b)) == FileTypeOf(ft) && ExistBit(WithSkipMirror(ft, b)) == ExistBit(ft)
  {
  }

  /** Between which nodes consume moves children: a directory consuming a directory. */
  predicate Merges(t: bv8, other: bv8) {
    t & TypeDir != 0 && other & TypeDir != 0
  }

  /** std::map::merge: every entry of src whose key dst lacks moves over; dst keeps its own. */
  function MergeInto(dst: map<string, Entry>, src: map<string, Entry>): (r: map<string, Entry>)
    ensures r.Keys == dst.Keys + src.Keys
    ensures forall k | k in dst :: r[k] == dst[k]
    ensures forall k | k in src && k !in dst :: r[k] == src[k]
  {
    src + dst
  }

  /** What std::map::merge leaves behind in src: the entries whose keys dst already had. */
  function MergeLeftover(dst: map<string, Entry>, src: map<string, Entry>): (r: map<string, Entry>)
    ensures r.Keys == src.Keys * dst.Keys
    ensures forall k | k in r :: r[k] == src[k]
  {
    map k | k in src && k in dst :: src[k]
  }

  // ---- Nodes ----

  /** What emplace<T> constructs: the node classes built from a name and a directory-entry type. */
  datatype Make =
    | MakeMirror(name: string, dType: bv8)
    | MakeModule(moduleName: string, name: string, dType: bv8)
    | MakeInter(name: string)
    | MakeRoot(name: string)

  function MakeType(m: Make): bv8 {
    match m
    case MakeMirror(_, _) => TypeMirror
    case MakeModule(_, _, _) => TypeModule
    case MakeInter(_) => TypeInter
    case MakeRoot(_) => TypeRoot
  }

  /** The classes upgrade<T> builds from the node they replace. */
  datatype Upgrade = ToRoot | ToModule(moduleName: string)

  function UpgradeType(u: Upgrade): bv8 {
    if u.ToRoot? then TypeRoot else TypeModule
  }

  /** The builder insert_at calls: insert's (hands over a node), emplace's (constructs one), upgrade's (consumes the existing one). */
  datatype Builder = Given(node: Entry) | Fresh(make: Make) | Upgrading(to: Upgrade)

  function MakeName(m: Make): string {
    m.name
  }

  /** The file-type byte emplace<T> gives a new node: directories are DT_DIR, and a root node also exists. */
  function MakeFileType(m: Make): bv8 {
    match m
    case MakeMirror(_, dType) => FileTypeOf(dType)
    case MakeModule(_, _, dType) => FileTypeOf(dType)
    case MakeInter(_) => DtDir
    case MakeRoot(_) => WithExist(DtDir, true)
  }

  /** The node type of what a builder produces. */
  function BuiltType(b: Builder): bv8 {
    match b
    case Given(n) => n.nodeType
    case Fresh(m) => MakeType(m)
    case Upgrading(u) => UpgradeType(u)
  }

  /** The name of what a builder produces, before it consumes anything. */
  function BuiltName(b: Builder): string
    reads if b.Given? then {b.node} else {}
  {
    match b
    case Given(n) => n.name
    case Fresh(m) => MakeName(m)
    case Upgrading(_) => ""
  }

  /** The children of what a builder produces, before it consumes anything. */
  function BuiltChildren(b: Builder): map<string, Entry>
    reads if b.Given? then {b.node} else {}
  {
    if b.Given? then b.node.children else map[]
  }

  /** The module of what a builder produces: a module node's module, empty for every other class. */
  function BuiltModule(b: Builder): string {
    match b
    case Given(n) => n.moduleName
    case Fresh(m) => if m.MakeModule? then m.moduleName else ""
    case Upgrading(u) => if u.ToModule? then u.moduleName else ""
  }

  /** The prefix of what a builder produces: "/system" for a root node rebuilt from another node, else empty. */
  function BuiltPrefix(b: Builder): string {
    match b
    case Given(n) => n.prefix
    case Fresh(_) => ""
    case Upgrading(u) => if u.ToRoot? then "/system" else ""
  }

  /** new T(args): the node emplace constructs. */
  method Build(m: Make) returns (n: Entry)
    ensures fresh(n)
    ensures n.name == MakeName(m) && n.fileType == MakeFileType(m) && n.nodeType == MakeType(m)
    ensures n.parent == null && n.children == map[] && n.nodePath == ""
    ensures n.moduleName == (if m.MakeModule? then m.moduleName else "") && n.prefix == ""
  {
    if m.MakeMirror? {
      n := new Entry.Named(m.name, m.dType, TypeMirror, "");
    } else if m.MakeModule? {
      n := new Entry.Named(m.name, m.dType, TypeModule, m.moduleName);
    } else if m.MakeInter? {
      n := new Entry.Named(m.name, DtDir, TypeInter, "");
    } else {
      n := new Entry.Root(m.name);
    }
  }

  /** The file-type byte of the node that replaces one with file-type byte ft. */
  function Replaced(ft: bv8, b: Builder): bv8 {
    if b == Upgrading(ToRoot) then WithExist(ft, true) else ft
  }

  /**
   * The replacement branch of insert_at: the built node consumes the node
   * ex it replaces (upgrade's builder does so in the constructor).
   */
  method Replacement(ex: Entry, b: Builder) returns (node: Entry)
    requires ex !in ex.children.Values
    requires b.Given? ==>
      b.node != ex && b.node !in b.node.children.Values && b.node !in ex.children.Values && ex !in b.node.children.Values
    modifies {ex} + (if b.Given? then {b.node} else {}), ex.children.Values`parent, BuiltChildren(b).Values`parent
    ensures node.name == old(ex.name) && node.parent == old(ex.parent) && node.nodeType == BuiltType(b)
    ensures if b.Given? then node == b.node else fresh(node)
    ensures node.fileType == Replaced(old(ex.fileType), b)
    ensures node.children == (if Merges(node.nodeType, ex.nodeType) then MergeInto(old(BuiltChildren(b)), old(ex.children))
                              else old(BuiltChildren(b)))
    ensures Merges(node.nodeType, ex.nodeType) ==> node.AdoptsChildren()
    ensures !Merges(node.nodeType, ex.nodeType) ==> forall c | c in node.children.Values :: c.parent == old(c.parent)
    ensures node.moduleName == BuiltModule(b) && node.prefix == BuiltPrefix(b)
    ensures node.nodePath == (if b.Given? then old(b.node.nodePath) else "")
  {
    if b.Given? {
      node := b.node;
      node.Consume(ex);
    } else if b.Fresh? {
      node := Build(b.make);
      node.Consume(ex);
    } else {
      node := new Entry.From(b.to, ex);
    }
  }

  class Entry {
    var name: string
    /** _file_type: bits 0-3 the file type, bit 6 skip-mirror, bit 7 exist. */
    var fileType: bv8
    /** _node_type: the bit of the node's class. */
    const nodeType: bv8
    var parent: Entry?
    /** _node_path: the cached path, empty until computed. */
    var nodePath: string
    /** The children of a directory node, by name. */
    var children: map<string, Entry>
    /** The module a module node mounts from; empty for other nodes. */
    const moduleName: string
    /** The path prefix of a root node; empty for other nodes. */
    const prefix: string

    /** node_entry(name, file_type, T*): only the low four bits of the file type are kept. */
    constructor Named(name: string, fileType: bv8, nodeType: bv8, moduleName: string)
      ensures this.name == name && this.fileType == FileTypeOf(fileType) && this.nodeType == nodeType
      ensures parent == null && children == map[] && nodePath == "" && this.moduleName == moduleName && prefix == ""
    {
      this.name := name;
      this.fileType := fileType & 0x0F;
      this.nodeType := nodeType;
      this.moduleName := moduleName;
      prefix := "";
      parent := null;
      nodePath := "";
      children := map[];
    }

    /** root_node(name): a directory node that exists, with an empty prefix. */
    constructor Root(name: string)
      ensures this.name == name && fileType == WithExist(DtDir, true) && nodeType == TypeRoot
      ensures parent == null && children == map[] && nodePath == "" && moduleName == "" && prefix == ""
    {
      this.name := name;
      fileType := DtDir | 0x80;
      nodeType := TypeRoot;
      moduleName := "";
      prefix := "";
      parent := null;
      nodePath := "";
      children := map[];
    }

    /** The node built from the existing one by upgrade<T>: root_node(node) or module_node(node, module). */
    constructor From(u: Upgrade, node: Entry)
      requires node.nodeType & TypeDir == 0 || node !in node.children.Values
      modifies node, node.children.Values`parent
      ensures nodeType == UpgradeType(u) && moduleName == (if u.ToModule? then u.moduleName else "")
      ensures prefix == (if u.ToRoot? then "/system" else "")
      ensures name == old(node.name) && parent == old(node.parent) && nodePath == ""
      ensures fileType == (if u.ToRoot? then WithExist(old(node.fileType), true) else old(node.fileType))
      ensures children == (if Merges(nodeType, node.nodeType) then old(node.children) else map[])
      ensures forall c | c in children.Values :: c.parent == this
    {
      nodeType := UpgradeType(u);
      moduleName := if u.ToModule? then u.moduleName else "";
      prefix := if u.ToRoot? then "/system" else "";
      name := "";
      fileType := 0;
      parent := null;
      nodePath := "";
      children := map[];
      new;
      Consume(node);
      if u.ToRoot? {
        fileType := fileType | 0x80;
      }
    }

    predicate IsDir() reads this`fileType { FileTypeOf(fileType) == DtDir }
    predicate IsLnk() reads this`fileType { FileTypeOf(fileType) == DtLnk }
    predicate IsReg() reads this`fileType { FileTypeOf(fileType) == DtReg }
    predicate Exist() reads this`fileType { ExistBit(fileType) }
    predicate SkipMirror() reads this`fileType { SkipMirrorBit(fileType) }

    /** set_exist: bit 7 becomes b, every other bit stays. */
    method SetExist(b: bool)
      modifies this`fileType
      ensures Exist() == b && fileType & 0x7F == old(fileType) & 0x7F
    {
      if b {
        fileType := fileType | 0x80;
      } else {
        fileType := fileType & 0x7F;
      }
    }

    /** set_skip_mirror: bit 6 becomes b, every other bit stays. */
    method SetSkipMirror(b: bool)
      modifies this`fileType
      ensures SkipMirror() == b && fileType & 0xBF == old(fileType) & 0xBF
    {
      if b {
        fileType := fileType | 0x40;
      } else {
        fileType := fileType & 0xBF;
      }
    }

    /**
     * consume(other), as dispatched on this node's class: a directory that
     * consumes a directory first takes over the children it lacks (its own
     * win) and re-parents all its children; then the name is swapped, and
     * the file type and parent are taken from other.
     */
    method Consume(other: Entry)
      requires other != this
      requires Merges(nodeType, other.nodeType) ==>
        this !in children.Values && this !in other.children.Values &&
        other !in children.Values && other !in other.children.Values
      modifies this`name, this`fileType, this`parent, this`children, other`name, other`children
      modifies children.Values`parent, other.children.Values`parent
      ensures name == old(other.name) && other.name == old(name)
      ensures fileType == old(other.fileType) && parent == old(other.parent)
      ensures Merges(nodeType, other.nodeType) ==>
        children == MergeInto(old(children), old(other.children)) &&
        other.children == MergeLeftover(old(children), old(other.children)) &&
        (forall c | c in children.Values :: c.parent == this)
      ensures !Merges(nodeType, other.nodeType) ==>
        children == old(children) && other.children == old(other.children) &&
        (forall c | c in old(children.Values) + old(other.children.Values) && c != this :: c.parent == old(c.parent))
    {
      if Merges(nodeType, other.nodeType) {
        var merged := MergeInto(children, other.children);
        other.children := MergeLeftover(children, other.children);
        children := merged;
        forall c | c in children.Values {
          c.parent := this;
        }
      }
      name, other.name := other.name, name;
      fileType := other.fileType;
      parent := other.parent;
    }

    // ---- Directory operations ----

    /** Every child of this node points back to it as its parent. */
    predicate AdoptsChildren()
      reads this`children, children.Values`parent
    {
      forall c | c in children.Values :: c.parent == this
    }

    /** The tree shape a directory keeps: each child is filed under its own name and points back here. */
    predicate ValidDir()
      reads this`children, children.Values`name, children.Values`parent
    {
      forall k | k in children :: children[k].name == k && children[k].parent == this
    }

    /** The nodes an insertion under key may change: the node filed there and the node handed over. */
    function Involved(key: string, b: Builder): set<Entry>
      reads this`children
    {
      (if key in children then {children[key]} else {}) + (if b.Given? then {b.node} else {})
    }

    function ChildrenOf(nodes: set<Entry>): set<Entry>
      reads nodes`children
    {
      set n, c | n in nodes && c in n.children.Values :: c
    }

    /**
     * The nodes involved in an insertion are separate trees: no node is its
     * own child, the handed-over node is not already filed here, and their
     * children are not children of this directory.
     */
    predicate CanInsert(key: string, b: Builder)
      reads this`children, Involved(key, b)`children
    {
      (key in children ==>
        var ex := children[key];
        ex !in ex.children.Values && this !in ex.children.Values && ex.children.Values !! children.Values) &&
      (b.Given? ==>
        var n := b.node;
        n != this && n !in children.Values && n !in n.children.Values && this !in n.children.Values &&
        n.children.Values !! children.Values &&
        (key in children ==> n !in children[key].children.Values && children[key] !in n.children.Values))
    }

    /**
     * insert_at: under a taken key the node is replaced only when its node
     * type is lower than rank; the built node consumes the old one and is
     * filed under the same key. Under a free key the built node gets this
     * directory as parent and is filed under its own name, unless that name
     * is taken, in which case the node already there is returned. Null is
     * returned for a rejection and then the map is unchanged.
     */
    method InsertAt(key: string, rank: bv8, b: Builder) returns (r: Entry?)
      requires ValidDir() && this !in children.Values && CanInsert(key, b)
      modifies this`children, Involved(key, b), ChildrenOf(Involved(key, b))`parent
      ensures r == null <==>
        (key in old(children) && !(old(children[key].nodeType) < rank)) || (key !in old(children) && b.Upgrading?)
      ensures r == null ==> children == old(children)
      ensures r != null && (key in old(children) || old(BuiltName(b)) !in old(children)) ==>
        r.nodeType == BuiltType(b) && r.parent == this && (if b.Given? then r == b.node else fresh(r)) &&
        r.moduleName == BuiltModule(b) && r.prefix == BuiltPrefix(b) &&
        r.nodePath == (if b.Given? then old(b.node.nodePath) else "")
      ensures key in old(children) && r != null ==>
        var ex := old(children[key]);
        children == old(children)[key := r] && r.name == key &&
        r.fileType == Replaced(old(ex.fileType), b) &&
        r.children == (if Merges(r.nodeType, ex.nodeType) then MergeInto(old(BuiltChildren(b)), old(ex.children))
                       else old(BuiltChildren(b))) &&
        (Merges(r.nodeType, ex.nodeType) ==> r.AdoptsChildren()) &&
        (!Merges(r.nodeType, ex.nodeType) ==> forall c | c in r.children.Values :: c.parent == old(c.parent))
      ensures key !in old(children) && r != null && old(BuiltName(b)) !in old(children) ==>
        children == old(children)[old(BuiltName(b)) := r] && r.name == old(BuiltName(b)) &&
        r.children == old(BuiltChildren(b)) && (forall c | c in r.children.Values :: c.parent == old(c.parent)) &&
        (b.Fresh? ==> r.fileType == MakeFileType(b.make)) && (b.Given? ==> r.fileType == old(b.node.fileType))
      ensures key !in old(children) && r != null && old(BuiltName(b)) in old(children) ==>
        r == old(children)[old(BuiltName(b))] && children == old(children)
      ensures ValidDir()
    {
      if key in children {
        if children[key].nodeType < rank {
          r := ReplaceAt(key, b);
        } else {
          r := null;
        }
      } else if b.Upgrading? {
        r := null;
      } else {
        r := AddNew(b);
      }
    }

    /** The replacement branch of insert_at: the built node takes the old node's place under key. */
    method ReplaceAt(key: string, b: Builder) returns (r: Entry)
      requires key in children && ValidDir() && this !in children.Values && CanInsert(key, b)
      modifies this`children, Involved(key, b), ChildrenOf(Involved(key, b))`parent
      ensures r.nodeType == BuiltType(b) && r.parent == this && (if b.Given? then r == b.node else fresh(r))
      ensures var ex := old(children[key]);
        children == old(children)[key := r] && r.name == key &&
        r.fileType == Replaced(old(ex.fileType), b) &&
        r.children == (if Merges(r.nodeType, ex.nodeType) then MergeInto(old(BuiltChildren(b)), old(ex.children))
                       else old(BuiltChildren(b))) &&
        (Merges(r.nodeType, ex.nodeType) ==> r.AdoptsChildren()) &&
        (!Merges(r.nodeType, ex.nodeType) ==> forall c | c in r.children.Values :: c.parent == old(c.parent))
      ensures r.moduleName == BuiltModule(b) && r.prefix == BuiltPrefix(b)
      ensures r.nodePath == (if b.Given? then old(b.node.nodePath) else "")
      ensures ValidDir()
    {
      var ex := children[key];
      assert forall k | k in children && k != key :: children[k] != ex && children[k] !in ex.children.Values;
      r := Replacement(ex, b);
      children := (children - {key})[r.name := r];
    }

    /** The free-key branch of insert_at for a node that is handed over or constructed. */
    method AddNew(b: Builder) returns (r: Entry)
      requires !b.Upgrading?
      requires ValidDir() && (b.Given? ==> b.node != this && b.node !in children.Values && b.node !in b.node.children.Values)
      modifies this`children, if b.Given? then {b.node} else {}
      ensures old(BuiltName(b)) !in old(children) ==>
        children == old(children)[old(BuiltName(b)) := r] && r.name == old(BuiltName(b)) &&
        r.nodeType == BuiltType(b) && r.parent == this && (if b.Given? then r == b.node else fresh(r)) &&
        r.children == old(BuiltChildren(b)) && (forall c | c in r.children.Values :: c.parent == old(c.parent)) &&
        (b.Fresh? ==> r.fileType == MakeFileType(b.make)) && (b.Given? ==> r.fileType == old(b.node.fileType)) &&
        r.moduleName == BuiltModule(b) && r.prefix == BuiltPrefix(b) &&
        r.nodePath == (if b.Given? then old(b.node.nodePath) else "")
      ensures old(BuiltName(b)) in old(children) ==> r == old(children)[old(BuiltName(b))] && children == old(children)
      ensures ValidDir()
    {
      var node: Entry;
      if b.Given? {
        node := b.node;
      } else {
        node := Build(b.make);
      }
      node.parent := this;
      if node.name in children {
        r := children[node.name];
      } else {
        children := children[node.name := node];
        r := node;
      }
    }

    /** insert(node): false for null or a rejection; on success node is filed under its name with this directory as parent. */
    method Insert(node: Entry?) returns (ok: bool)
      requires ValidDir() && this !in children.Values && (node != null ==> CanInsert(node.name, Given(node)))
      modifies this`children
      modifies if node == null then {} else Involved(node.name, Given(node))
      modifies if node == null then {} else ChildrenOf(Involved(node.name, Given(node)))`parent
      ensures ok <==> node != null && (old(node.name) !in old(children) || old(children[node.name].nodeType) < node.nodeType)
      ensures ok ==> children == old(children)[old(node.name) := node] && node.parent == this && node.name == old(node.name)
      ensures ok ==> node.nodePath == old(node.nodePath)
      ensures ok && old(node.name) in old(children) ==>
        var ex := old(children[node.name]);
        node.fileType == old(ex.fileType) &&
        node.children == (if Merges(node.nodeType, ex.nodeType) then MergeInto(old(node.children), old(ex.children))
                          else old(node.children)) &&
        (Merges(node.nodeType, ex.nodeType) ==> node.AdoptsChildren()) &&
        (!Merges(node.nodeType, ex.nodeType) ==> forall c | c in node.children.Values :: c.parent == old(c.parent))
      ensures ok && old(node.name) !in old(children) ==>
        node.fileType == old(node.fileType) && node.children == old(node.children) &&
        forall c | c in node.children.Values :: c.parent == old(c.parent)
      ensures !ok ==> children == old(children)
      ensures ValidDir()
    {
      if node == null {
        return false;
      }
      ghost var key := node.name;
      assert BuiltName(Given(node)) == key;
      var r := InsertAt(node.name, node.nodeType, Given(node));
      ok := r != null;
      if ok {
        assert r == node;
      }
    }

    /** emplace<T>(key, args): a new node, filed as insert_at files it; null when rejected. */
    method Emplace(key: string, m: Make) returns (r: Entry?)
      requires ValidDir() && this !in children.Values && CanInsert(key, Fresh(m))
      modifies this`children, Involved(key, Fresh(m)), ChildrenOf(Involved(key, Fresh(m)))`parent
      ensures r == null <==> key in old(children) && !(old(children[key].nodeType) < MakeType(m))
      ensures r == null ==> children == old(children)
      ensures key in old(children) && r != null ==>
        fresh(r) && children == old(children)[key := r] && r.name == key && r.nodeType == MakeType(m) &&
        r.parent == this && r.fileType == old(children[key].fileType) &&
        r.children == (if Merges(r.nodeType, old(children[key].nodeType)) then old(children[key].children) else map[]) &&
        r.AdoptsChildren()
      ensures r != null && (key in old(children) || MakeName(m) !in old(children)) ==>
        r.moduleName == (if m.MakeModule? then m.moduleName else "") && r.prefix == "" && r.nodePath == ""
      ensures key !in old(children) && MakeName(m) !in old(children) ==>
        r != null && fresh(r) && children == old(children)[MakeName(m) := r] && r.name == MakeName(m) &&
        r.nodeType == MakeType(m) && r.parent == this && r.fileType == MakeFileType(m) && r.children == map[]
      ensures key !in old(children) && MakeName(m) in old(children) ==>
        r == old(children)[MakeName(m)] && children == old(children)
      ensures ValidDir()
    {
      r := InsertAt(key, MakeType(m), Fresh(m));
    }

    /** upgrade<T>(key, args): the child under key is rebuilt as the higher-ranked class; null when absent or not outranked. */
    method UpgradeChild(key: string, u: Upgrade) returns (r: Entry?)
      requires ValidDir() && this !in children.Values && CanInsert(key, Upgrading(u))
      modifies this`children, Involved(key, Upgrading(u)), ChildrenOf(Involved(key, Upgrading(u)))`parent
      ensures r == null <==> key !in old(children) || !(old(children[key].nodeType) < UpgradeType(u))
      ensures r == null ==> children == old(children)
      ensures r != null ==>
        var ex := old(children[key]);
        fresh(r) && children == old(children)[key := r] && r.name == key && r.parent == this &&
        r.nodeType == UpgradeType(u) && r.fileType == Replaced(old(ex.fileType), Upgrading(u)) &&
        r.children == (if Merges(r.nodeType, ex.nodeType) then old(ex.children) else map[]) &&
        r.AdoptsChildren() &&
        r.moduleName == (if u.ToModule? then u.moduleName else "") &&
        r.prefix == (if u.ToRoot? then "/system" else "") && r.nodePath == ""
      ensures ValidDir()
    {
      r := InsertAt(key, UpgradeType(u), Upgrading(u));
    }

    /**
     * extract: the child under key is removed from the map and returned, or
     * null is returned and the map stays as it was.
     */
    method Extract(key: string) returns (r: Entry?)
      modifies this`children
      ensures key in old(children) ==> r == old(children)[key] && children == old(children) - {key}
      ensures key !in old(children) ==> r == null && children == old(children)
    {
      if key in children {
        r := children[key];
        children := children - {key};
      } else {
        r := null;
      }
    }

    /**
     * node_path: the names from the topmost ancestor down, each after a '/'; the topmost
     * ancestor contributes nothing. The first call caches the path in every node on the way up.
     */
    method NodePath(ghost chain: seq<Entry>) returns (p: string)
      requires Ancestry(this, chain) && CachesSound(this, chain)
      modifies this`nodePath, chain`nodePath
      ensures p == PathOf(this, chain)
      ensures parent != null ==> nodePath == p
      ensures CachesSound(this, chain)
      decreases |chain|
    {
      if parent != null && nodePath == "" {
        NotOwnAncestor(this, chain);
        var up := parent.NodePath(chain[1..]);
        nodePath := up + "/" + name;
      }
      p := nodePath;
    }

    /** mirror_path: the node's path under the mirror directory. */
    method MirrorPath(mirrorDir: string, ghost chain: seq<Entry>) returns (p: string)
      requires Ancestry(this, chain) && CachesSound(this, chain)
      modifies this`nodePath, chain`nodePath
      ensures p == mirrorDir + PathOf(this, chain)
      ensures CachesSound(this, chain)
    {
      var path := NodePath(chain);
      p := mirrorDir + path;
    }
  }

  // ---- Paths ----

  /** chain lists the ancestors of n, its parent first, up to a node without a parent. */
  ghost predicate Ancestry(n: Entry, chain: seq<Entry>)
    reads n`parent, chain`parent
    decreases |chain|
  {
    if chain == [] then n.parent == null
    else n.parent == chain[0] && Ancestry(chain[0], chain[1..])
  }

  /** The path node_path computes, from the names along the chain. */
  ghost function PathOf(n: Entry, chain: seq<Entry>): string
    reads n`parent, n`name, chain`parent, chain`name
    requires Ancestry(n, chain)
    decreases |chain|
  {
    if chain == [] then "" else PathOf(chain[0], chain[1..]) + "/" + n.name
  }

  /** Every cached path on the chain is either still empty or the true path. */
  ghost predicate CachesSound(n: Entry, chain: seq<Entry>)
    reads n`parent, n`name, n`nodePath
    reads chain`parent, chain`name, chain`nodePath
    requires Ancestry(n, chain)
    decreases |chain|
  {
    (n.nodePath == "" || n.nodePath == PathOf(n, chain)) &&
    (chain != [] ==> CachesSound(chain[0], chain[1..]))
  }

  /** A node's ancestor chain is determined by the parent links. */
  lemma {:induction false} AncestryUnique(n: Entry, c1: seq<Entry>, c2: seq<Entry>)
    requires Ancestry(n, c1) && Ancestry(n, c2)
    ensures c1 == c2
    decreases |c1|
  {
    if c1 != [] {
      AncestryUnique(c1[0], c1[1..], c2[1..]);
      assert c1 == [c1[0]] + c1[1..] && c2 == [c2[0]] + c2[1..];
    }
  }

  /** Every suffix of an ancestor chain is the chain of its first node. */
  lemma {:induction false} AncestrySuffix(n: Entry, chain: seq<Entry>, i: nat)
    requires Ancestry(n, chain) && i < |chain|
    ensures Ancestry(chain[i], chain[i + 1..])
    decreases i
  {
    if i > 0 {
      AncestrySuffix(chain[0], chain[1..], i - 1);
      assert chain[1..][i - 1] == chain[i] && chain[1..][i..] == chain[i + 1..];
    }
  }

  /** Parent links ending at a root form no cycle: a node is not among its own ancestors. */
  lemma NotOwnAncestor(n: Entry, chain: seq<Entry>)
    requires Ancestry(n, chain)
    ensures n !in chain
  {
    if i :| 0 <= i < |chain| && chain[i] == n {
      AncestrySuffix(n, chain, i);
      AncestryUnique(n, chain, chain[i + 1..]);
    }
  }
}
