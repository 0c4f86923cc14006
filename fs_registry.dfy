/**
 * The in-memory filesystem registry of EFS (efs/src/fs/fs.c): a list of
 * filesystem records, most recently inserted first, together with the
 * lifecycle operations that create and delete filesystems and exports.
 *
 * The namespace store, the tree store and the tenant catalog are external;
 * every call into them is an input outcome (`Rc`: 0 or a negative errno) and
 * every allocation an input `bool`. The operations report the external calls
 * they attempted, in order, so that what is left behind on a failure can be
 * stated.
 */
module FsRegistry {
  import opened Wrappers
  import opened Errno

  /** Opaque handle of a filesystem's persisted object tree. */
  type TreeHandle = nat

  /** A filesystem's persisted identity: its name and numeric id. */
  datatype Namespace = Namespace(name: string, id: nat)

  /** An export (tenant) catalog entry, bound to a namespace id. */
  datatype Tenant = Tenant(name: string, nsId: nat, options: string)

  /** One registry record: the namespace, the tree handle once materialised, the export binding if exported. */
  datatype FsRecord = FsRecord(ns: Namespace, kvtree: Option<TreeHandle>, tenant: Option<Tenant>)

  /** The view of a record handed to a scan visitor: its name and its export information (None when unexported). */
  datatype ListEntry = ListEntry(fsName: string, endpointInfo: Option<Tenant>)

  /** A call into one of the external stores. */
  datatype StoreCall =
    | NsCreate(name: string)
    | TreeCreate(name: string)
    | RootCreate(name: string)
    | RootDelete(name: string)
    | TreeDelete(name: string)
    | NsDelete(name: string)
    | TenantCreate(tenant: Tenant)
    | TenantDelete(tenant: Tenant)

  /** Index of the first record, in list order, whose name is exactly `name`. */
  function FindFirst(list: seq<FsRecord>, name: string): (r: Option<nat>)
    ensures r.Some? ==> r.value < |list| && list[r.value].ns.name == name
    ensures r.Some? ==> forall j :: 0 <= j < r.value ==> list[j].ns.name != name
    ensures r.None? <==> forall j :: 0 <= j < |list| ==> list[j].ns.name != name
  {
    if list == [] then None
    else if list[0].ns.name == name then Some(0)
    else match FindFirst(list[1..], name)
      case None => None
      case Some(k) => Some(k + 1)
  }

  /** The registry's invariant: no two records carry the same name. */
  predicate NamesDistinct(list: seq<FsRecord>)
  {
    forall i, j :: 0 <= i < j < |list| ==> list[i].ns.name != list[j].ns.name
  }

  /** The list with the record at index `i` unlinked. */
  function RemoveAt(list: seq<FsRecord>, i: nat): (r: seq<FsRecord>)
    requires i < |list|
    ensures |r| == |list| - 1
    ensures forall k :: 0 <= k < i ==> r[k] == list[k]
    ensures forall k :: i <= k < |r| ==> r[k] == list[k + 1]
  {
    list[..i] + list[i + 1..]
  }

  /** Emptiness check run before a filesystem is deleted: a stub that always reports "empty". */
  function IsEmpty(fs: FsRecord): (rc: int)
    ensures rc == 0
  {
    0
  }

  /** The export information of a record: none when it is not exported, else taken from its tenant. */
  function EndpointInfo(fs: FsRecord): (r: Option<Tenant>)
    ensures r.None? <==> fs.tenant.None?
    ensures r.Some? ==> r.value == fs.tenant.value
  {
    if fs.tenant.None? then None else Some(fs.tenant.value)
  }

  /** The entry a scan delivers for one record. */
  function Entry(fs: FsRecord): ListEntry
  {
    ListEntry(fs.ns.name, EndpointInfo(fs))
  }

  /** The entries of a whole list, in list order. */
  function Entries(list: seq<FsRecord>): (r: seq<ListEntry>)
    ensures |r| == |list|
    ensures forall k :: 0 <= k < |list| ==> r[k].fsName == list[k].ns.name
    ensures forall k :: 0 <= k < |list| ==> (r[k].endpointInfo.None? <==> list[k].tenant.None?)
    ensures forall k :: 0 <= k < |list| && list[k].tenant.Some? ==> r[k].endpointInfo == list[k].tenant
  {
    seq(|list|, k requires 0 <= k < |list| => Entry(list[k]))
  }

  /** The answer of the checks that precede a filesystem delete; 0 lets the delete proceed. */
  function DeleteRefusal(list: seq<FsRecord>, name: string): (rc: int)
    ensures rc == -ENOENT <==> FindFirst(list, name).None?
    ensures rc == -EINVAL <==> FindFirst(list, name).Some? && list[FindFirst(list, name).value].tenant.Some?
    ensures rc == 0 <==> FindFirst(list, name).Some? && list[FindFirst(list, name).value].tenant.None?
  {
    match FindFirst(list, name)
    case None => -ENOENT
    case Some(i) => if list[i].tenant.Some? then -EINVAL else IsEmpty(list[i])
  }

  /** The answer of the checks that precede an export create; 0 lets it proceed. */
  function ExportRefusal(list: seq<FsRecord>, name: string): (rc: int)
    ensures rc == -ENOENT <==> FindFirst(list, name).None?
    ensures rc == -EEXIST <==> FindFirst(list, name).Some? && list[FindFirst(list, name).value].tenant.Some?
    ensures rc == 0 <==> FindFirst(list, name).Some? && list[FindFirst(list, name).value].tenant.None?
  {
    match FindFirst(list, name)
    case None => -ENOENT
    case Some(i) => if list[i].tenant.Some? then -EEXIST else 0
  }

  /** The answer of the checks that precede an export delete: a missing filesystem and a missing binding both read as -ENOENT. */
  function UnexportRefusal(list: seq<FsRecord>, name: string): (rc: int)
    ensures rc == 0 <==> FindFirst(list, name).Some? && list[FindFirst(list, name).value].tenant.Some?
    ensures rc != 0 ==> rc == -ENOENT
  {
    match FindFirst(list, name)
    case None => -ENOENT
    case Some(i) => if list[i].tenant.None? then -ENOENT else 0
  }

  /** On a registry with distinct names, a lookup by a record's name finds exactly that record. */
  lemma LookupFindsUnique(list: seq<FsRecord>, i: nat)
    requires NamesDistinct(list) && i < |list|
    ensures FindFirst(list, list[i].ns.name) == Some(i)
  {
  }

  /** Prepending a record whose name is not registered keeps the names distinct and makes the new record the lookup result. */
  lemma PrependKeepsDistinct(list: seq<FsRecord>, fs: FsRecord)
    requires NamesDistinct(list) && FindFirst(list, fs.ns.name).None?
    ensures NamesDistinct([fs] + list)
    ensures FindFirst([fs] + list, fs.ns.name) == Some(0)
  {
    var l := [fs] + list;
    forall i, j | 0 <= i < j < |l| ensures l[i].ns.name != l[j].ns.name {
      if i > 0 {
        assert l[i] == list[i - 1] && l[j] == list[j - 1];
      } else {
        assert l[j] == list[j - 1];
      }
    }
  }

  /** Unlinking a record from a list with distinct names keeps them distinct, and the name is no longer found. */
  lemma RemoveKeepsDistinct(list: seq<FsRecord>, i: nat)
    requires NamesDistinct(list) && i < |list|
    ensures NamesDistinct(RemoveAt(list, i))
    ensures FindFirst(RemoveAt(list, i), list[i].ns.name).None?
  {
    var r := RemoveAt(list, i);
    forall a, b | 0 <= a < b < |r| ensures r[a].ns.name != r[b].ns.name {
      var a' := if a < i then a else a + 1;
      var b' := if b < i then b else b + 1;
      assert r[a] == list[a'] && r[b] == list[b'] && a' < b';
    }
    forall k | 0 <= k < |r| ensures r[k].ns.name != list[i].ns.name {
      var k' := if k < i then k else k + 1;
      assert r[k] == list[k'] && k' != i;
    }
  }

  /** Changing only a record's binding or tree handle keeps every lookup's answer and the distinctness of names. */
  lemma {:induction false} SameNamesSameLookup(a: seq<FsRecord>, b: seq<FsRecord>, name: string)
    requires |a| == |b|
    requires forall k :: 0 <= k < |a| ==> a[k].ns == b[k].ns
    ensures FindFirst(a, name) == FindFirst(b, name)
    ensures NamesDistinct(a) ==> NamesDistinct(b)
  {
    if a != [] {
      SameNamesSameLookup(a[1..], b[1..], name);
    }
  }

  /**
   * Record built by the startup namespace scan, AS WRITTEN: the export binding
   * is never assigned, so it holds whatever the allocator left in the fresh
   * node (`leftover`).
   */
  function ScannedRecordAsWritten(ns: Namespace, leftover: Option<Tenant>): FsRecord
  {
    FsRecord(ns, None, leftover)
  }

  /** Record built by the startup namespace scan as intended: no tree handle and no export binding. */
  function ScannedRecord(ns: Namespace): FsRecord
  {
    FsRecord(ns, None, None)
  }

  /**
   * As written, a non-null leftover binding makes a filesystem that was never
   * exported read as exported: deleting it fails with -EINVAL and exporting it
   * fails with -EEXIST.
   */
  lemma ScanLeftoverBlocksDelete(list: seq<FsRecord>, ns: Namespace, leftover: Tenant)
    ensures DeleteRefusal([ScannedRecordAsWritten(ns, Some(leftover))] + list, ns.name) == -EINVAL
    ensures ExportRefusal([ScannedRecordAsWritten(ns, Some(leftover))] + list, ns.name) == -EEXIST
  {
    assert FindFirst([ScannedRecordAsWritten(ns, Some(leftover))] + list, ns.name) == Some(0);
  }

  /** With the binding cleared, a record from the startup scan is unexported: it can be deleted and exported. */
  lemma ScannedRecordIsUnexported(list: seq<FsRecord>, ns: Namespace)
    ensures UnexportRefusal([ScannedRecord(ns)] + list, ns.name) == -ENOENT
    ensures DeleteRefusal([ScannedRecord(ns)] + list, ns.name) == 0
    ensures ExportRefusal([ScannedRecord(ns)] + list, ns.name) == 0
  {
    assert FindFirst([ScannedRecord(ns)] + list, ns.name) == Some(0);
  }

  /** The process-wide registry of filesystems. */
  class Registry {
    /** Most recently inserted record first. */
    var fsList: seq<FsRecord>

    constructor ()
      ensures fsList == []
    {
      fsList := [];
    }

    /** Looks a filesystem up by exact name; `found` is the index of the first match. */
    method Lookup(name: string) returns (rc: int, found: Option<nat>)
      ensures found == FindFirst(fsList, name)
      ensures rc == 0 <==> found.Some?
      ensures found.Some? ==> found.value < |fsList| && fsList[found.value].ns.name == name
      ensures found.Some? ==> forall j :: 0 <= j < found.value ==> fsList[j].ns.name != name
      ensures found.None? ==> rc == -ENOENT && forall j :: 0 <= j < |fsList| ==> fsList[j].ns.name != name
    {
      var i := 0;
      while i < |fsList|
        invariant 0 <= i <= |fsList|
        invariant forall j :: 0 <= j < i ==> fsList[j].ns.name != name
      {
        if fsList[i].ns.name == name {
          return 0, Some(i);
        }
        i := i + 1;
      }
      return -ENOENT, None;
    }

    /**
     * Startup population, as written: one namespace found by the namespace
     * scan becomes a record at the head of the list, with no tree handle.
     * The export binding is never assigned, so it is `leftover`, whatever the
     * allocator left in the node; with `leftover == None` this is the intended
     * `ScannedRecord(ns)`. When either allocation fails the namespace is skipped.
     */
    method AddScanned(ns: Namespace, nodeAlloc: bool, nsCopyAlloc: bool, leftover: Option<Tenant>)
      modifies this
      ensures nodeAlloc && nsCopyAlloc ==> fsList == [ScannedRecordAsWritten(ns, leftover)] + old(fsList)
      ensures nodeAlloc && nsCopyAlloc && leftover.None? ==> fsList == [ScannedRecord(ns)] + old(fsList)
      ensures !(nodeAlloc && nsCopyAlloc) ==> fsList == old(fsList)
      ensures NamesDistinct(old(fsList)) && FindFirst(old(fsList), ns.name).None? ==> NamesDistinct(fsList)
    {
      if !nodeAlloc || !nsCopyAlloc {
        return;
      }
      var fs := ScannedRecordAsWritten(ns, leftover);
      if NamesDistinct(fsList) && FindFirst(fsList, ns.name).None? {
        PrependKeepsDistinct(fsList, fs);
      }
      fsList := [fs] + fsList;
    }

    /**
     * Startup reconciliation: binds one tenant found in the catalog to the
     * filesystem of the same name. A null tenant is -ENOENT; a tenant whose
     * filesystem is missing is the catalog/registry inconsistency, reported
     * as the lookup's -ENOENT with the registry unchanged.
     */
    method BindScannedTenant(tenant: Option<Tenant>) returns (rc: int)
      modifies this
      ensures tenant.None? ==> rc == -ENOENT && fsList == old(fsList)
      ensures tenant.Some? && FindFirst(old(fsList), tenant.value.name).None? ==> rc == -ENOENT && fsList == old(fsList)
      ensures tenant.Some? && FindFirst(old(fsList), tenant.value.name).Some? ==>
        var i := FindFirst(old(fsList), tenant.value.name).value;
        rc == 0 && fsList == old(fsList)[i := old(fsList)[i].(tenant := tenant)]
      ensures NamesDistinct(old(fsList)) ==> NamesDistinct(fsList)
    {
      if tenant.None? {
        return -ENOENT;
      }
      var found;
      rc, found := Lookup(tenant.value.name);
      if rc != 0 {
        return;
      }
      var i := found.value;
      var l := fsList[i := fsList[i].(tenant := tenant)];
      SameNamesSameLookup(fsList, l, tenant.value.name);
      fsList := l;
    }

    /** Detaches every export binding, keeping every record and the list order. */
    method EndpointFini() returns (rc: int)
      modifies this
      ensures rc == 0
      ensures |fsList| == |old(fsList)|
      ensures forall k :: 0 <= k < |fsList| ==> fsList[k] == old(fsList)[k].(tenant := None)
      ensures NamesDistinct(old(fsList)) ==> NamesDistinct(fsList)
    {
      var i := 0;
      while i < |fsList|
        invariant 0 <= i <= |fsList| == |old(fsList)|
        invariant forall k :: 0 <= k < i ==> fsList[k] == old(fsList)[k].(tenant := None)
        invariant forall k :: i <= k < |fsList| ==> fsList[k] == old(fsList)[k]
      {
        fsList := fsList[i := fsList[i].(tenant := None)];
        i := i + 1;
      }
      SameNamesSameLookup(old(fsList), fsList, "");
      rc := 0;
    }

    /**
     * Teardown: detaches every binding, then unlinks and releases every
     * record. `released` lists the records released, in list order.
     */
    method FsFini() returns (rc: int, released: seq<FsRecord>)
      modifies this
      ensures rc == 0 && fsList == []
      ensures |released| == |old(fsList)|
      ensures forall k :: 0 <= k < |released| ==> released[k] == old(fsList)[k].(tenant := None)
    {
      rc := EndpointFini();
      if rc != 0 {
        return rc, [];
      }
      ghost var detached := fsList;
      released := [];
      while fsList != []
        invariant |released| <= |detached|
        invariant released == detached[..|released|]
        invariant fsList == detached[|released|..]
        decreases |fsList|
      {
        released := released + [fsList[0]];
        fsList := fsList[1..];
      }
      assert released == detached;
    }

    /**
     * Visits the records in list order and stops at the first visitor result
     * that is not 0, returning it. `visited` lists the entries delivered.
     */
    method ScanList(visit: ListEntry -> int) returns (rc: int, visited: seq<ListEntry>)
      ensures |visited| <= |fsList|
      ensures visited == Entries(fsList)[..|visited|]
      ensures forall k :: 0 <= k < |visited| - 1 ==> visit(visited[k]) == 0
      ensures rc == 0 ==> |visited| == |fsList| && forall k :: 0 <= k < |visited| ==> visit(visited[k]) == 0
      ensures rc != 0 ==> |visited| > 0 && rc == visit(visited[|visited| - 1])
    {
      rc, visited := 0, [];
      var i := 0;
      while i < |fsList|
        invariant 0 <= i <= |fsList|
        invariant visited == Entries(fsList)[..i]
        invariant forall k :: 0 <= k < i ==> visit(visited[k]) == 0
      {
        var entry := Entry(fsList[i]);
        visited := visited + [entry];
        rc := visit(entry);
        if rc != 0 {
          return;
        }
        i := i + 1;
      }
    }

    /**
     * Creates a filesystem: refuses a registered name with -EEXIST, then
     * allocates a node, creates the namespace, the tree and its root in that
     * order, and prepends the record only when all succeeded. A failure stops
     * the sequence; the namespace and tree already created are not removed.
     */
    method Create(name: string, nodeAlloc: bool, nsRc: Rc, nsId: nat, treeRc: Rc, tree: TreeHandle, rootRc: Rc)
      returns (rc: int, calls: seq<StoreCall>)
      modifies this
      ensures FindFirst(old(fsList), name).Some? ==> rc == -EEXIST && calls == []
      ensures FindFirst(old(fsList), name).None? && !nodeAlloc ==> rc == -ENOMEM && calls == []
      ensures FindFirst(old(fsList), name).None? && nodeAlloc ==>
        && (nsRc != 0 ==> rc == nsRc && calls == [NsCreate(name)])
        && (nsRc == 0 && treeRc != 0 ==> rc == treeRc && calls == [NsCreate(name), TreeCreate(name)])
        && (nsRc == 0 && treeRc == 0 ==> rc == rootRc && calls == [NsCreate(name), TreeCreate(name), RootCreate(name)])
      ensures rc == 0 ==> fsList == [FsRecord(Namespace(name, nsId), Some(tree), None)] + old(fsList)
      ensures rc != 0 ==> fsList == old(fsList)
      ensures rc == 0 ==> FindFirst(fsList, name) == Some(0)
      ensures NamesDistinct(old(fsList)) ==> NamesDistinct(fsList)
    {
      var lrc, _ := Lookup(name);
      if lrc == 0 {
        return -EEXIST, [];
      }
      if !nodeAlloc {
        return -ENOMEM, [];
      }
      calls := [NsCreate(name)];
      if nsRc != 0 {
        return nsRc, calls;
      }
      var fs := FsRecord(Namespace(name, nsId), None, None);
      calls := calls + [TreeCreate(name)];
      if treeRc != 0 {
        return treeRc, calls;
      }
      fs := fs.(kvtree := Some(tree));
      calls := calls + [RootCreate(name)];
      rc := rootRc;
      if rc == 0 {
        if NamesDistinct(fsList) {
          PrependKeepsDistinct(fsList, fs);
        }
        fsList := [fs] + fsList;
      }
    }

    /**
     * Creates an export for a filesystem: refuses a missing filesystem with
     * -ENOENT and an exported one with -EEXIST, then creates the tenant for the
     * filesystem's namespace id and binds it to that record alone.
     */
    method EndpointCreate(name: string, options: string, tenantRc: Rc) returns (rc: int, calls: seq<StoreCall>)
      modifies this
      ensures ExportRefusal(old(fsList), name) != 0 ==>
        rc == ExportRefusal(old(fsList), name) && calls == [] && fsList == old(fsList)
      ensures ExportRefusal(old(fsList), name) == 0 ==>
        var i := FindFirst(old(fsList), name).value;
        var t := Tenant(name, old(fsList)[i].ns.id, options);
        && calls == [TenantCreate(t)]
        && rc == tenantRc
        && fsList == (if tenantRc == 0 then old(fsList)[i := old(fsList)[i].(tenant := Some(t))] else old(fsList))
      ensures NamesDistinct(old(fsList)) ==> NamesDistinct(fsList)
    {
      var found;
      rc, found := Lookup(name);
      if rc != 0 {
        return -ENOENT, [];
      }
      var i := found.value;
      if fsList[i].tenant.Some? {
        return -EEXIST, [];
      }
      var t := Tenant(name, fsList[i].ns.id, options);
      calls := [TenantCreate(t)];
      rc := tenantRc;
      if rc != 0 {
        return;
      }
      var l := fsList[i := fsList[i].(tenant := Some(t))];
      SameNamesSameLookup(fsList, l, name);
      fsList := l;
    }

    /**
     * Deletes the export of a filesystem: refuses a missing filesystem or a
     * missing binding with -ENOENT, deletes the tenant, and clears the binding
     * only when that succeeded.
     */
    method EndpointDelete(name: string, tenantRc: Rc) returns (rc: int, calls: seq<StoreCall>)
      modifies this
      ensures UnexportRefusal(old(fsList), name) != 0 ==> rc == -ENOENT && calls == [] && fsList == old(fsList)
      ensures UnexportRefusal(old(fsList), name) == 0 ==>
        var i := FindFirst(old(fsList), name).value;
        && calls == [TenantDelete(old(fsList)[i].tenant.value)]
        && rc == tenantRc
        && fsList == (if tenantRc == 0 then old(fsList)[i := old(fsList)[i].(tenant := None)] else old(fsList))
      ensures NamesDistinct(old(fsList)) ==> NamesDistinct(fsList)
    {
      var found;
      rc, found := Lookup(name);
      if rc != 0 {
        return -ENOENT, [];
      }
      var i := found.value;
      if fsList[i].tenant.None? {
        return -ENOENT, [];
      }
      calls := [TenantDelete(fsList[i].tenant.value)];
      rc := tenantRc;
      if rc != 0 {
        return;
      }
      var l := fsList[i := fsList[i].(tenant := None)];
      SameNamesSameLookup(fsList, l, name);
      fsList := l;
    }

    /**
     * Deletes a filesystem: refuses a missing one with -ENOENT and an exported
     * one with -EINVAL, then deletes the tree root, the tree, unlinks the
     * record and deletes the namespace, in that order. A failure stops the
     * sequence with the earlier steps kept: once the tree is gone the record
     * is unlinked even if the namespace delete then fails.
     */
    method Delete(name: string, rootRc: Rc, treeRc: Rc, nsRc: Rc) returns (rc: int, calls: seq<StoreCall>)
      modifies this
      ensures DeleteRefusal(old(fsList), name) != 0 ==>
        rc == DeleteRefusal(old(fsList), name) && calls == [] && fsList == old(fsList)
      ensures DeleteRefusal(old(fsList), name) == 0 ==>
        && (rootRc != 0 ==> rc == rootRc && calls == [RootDelete(name)] && fsList == old(fsList))
        && (rootRc == 0 && treeRc != 0 ==> rc == treeRc && calls == [RootDelete(name), TreeDelete(name)] && fsList == old(fsList))
        && (rootRc == 0 && treeRc == 0 ==>
              && rc == nsRc
              && calls == [RootDelete(name), TreeDelete(name), NsDelete(name)]
              && fsList == RemoveAt(old(fsList), FindFirst(old(fsList), name).value))
      ensures NamesDistinct(old(fsList)) ==> NamesDistinct(fsList)
      ensures NamesDistinct(old(fsList)) && DeleteRefusal(old(fsList), name) == 0 && rootRc == 0 && treeRc == 0 ==>
        FindFirst(fsList, name).None?
    {
      var found;
      rc, found := Lookup(name);
      if rc != 0 {
        return rc, [];
      }
      var i := found.value;
      if fsList[i].tenant.Some? {
        return -EINVAL, [];
      }
      rc := IsEmpty(fsList[i]);
      if rc != 0 {
        return rc, [];
      }
      calls := [RootDelete(name)];
      if rootRc != 0 {
        return rootRc, calls;
      }
      calls := calls + [TreeDelete(name)];
      if treeRc != 0 {
        return treeRc, calls;
      }
      // The tree handle is cleared on the record just before it is unlinked.
      if NamesDistinct(fsList) {
        RemoveKeepsDistinct(fsList, i);
      }
      fsList := RemoveAt(fsList, i);
      calls := calls + [NsDelete(name)];
      rc := nsRc;
    }

    /**
     * Opens a filesystem by name: -ENOENT when it is not registered; allocates
     * the tree handle when the record has none (-ENOMEM when that fails), then
     * returns the tree initialisation's result together with the record.
     */
    method Open(name: string, treeAlloc: bool, newTree: TreeHandle, initRc: Rc) returns (rc: int, fs: Option<nat>)
      modifies this
      ensures FindFirst(old(fsList), name).None? ==> rc == -ENOENT && fs.None? && fsList == old(fsList)
      ensures FindFirst(old(fsList), name).Some? ==>
        var i := FindFirst(old(fsList), name).value;
        if old(fsList)[i].kvtree.None? && !treeAlloc then
          rc == -ENOMEM && fs.None? && fsList == old(fsList)
        else
          && rc == initRc
          && fs == Some(i)
          && fsList == if old(fsList)[i].kvtree.Some? then old(fsList)
                       else old(fsList)[i := old(fsList)[i].(kvtree := Some(newTree))]
      ensures NamesDistinct(old(fsList)) ==> NamesDistinct(fsList)
    {
      var found;
      rc, found := Lookup(name);
      if rc != 0 {
        return -ENOENT, None;
      }
      var i := found.value;
      if fsList[i].kvtree.None? {
        if !treeAlloc {
          return -ENOMEM, None;
        }
        var l := fsList[i := fsList[i].(kvtree := Some(newTree))];
        SameNamesSameLookup(fsList, l, name);
        fsList := l;
      }
      rc := initRc;
      fs := Some(i);
    }
  }

  /**
   * One filesystem's export lifecycle with every store call succeeding:
   * create "fs1", create it again (refused), export it with options "ro",
   * scan, delete it (refused while exported), unexport it, delete it, and
   * look it up again.
   */
  method ExportLifecycle(tree: TreeHandle) returns (rcs: seq<int>, scanned: seq<ListEntry>)
    ensures rcs == [0, -EEXIST, 0, -EINVAL, 0, 0, -ENOENT]
    ensures scanned == [ListEntry("fs1", Some(Tenant("fs1", 1, "ro")))]
  {
    var reg := new Registry();
    var created, _ := reg.Create("fs1", true, 0, 1, 0, tree, 0);
    var again, _ := reg.Create("fs1", true, 0, 2, 0, tree, 0);
    var exported, _ := reg.EndpointCreate("fs1", "ro", 0);
    var scanRc;
    scanRc, scanned := reg.ScanList(e => 0);
    var refused, _ := reg.Delete("fs1", 0, 0, 0);
    var unexported, _ := reg.EndpointDelete("fs1", 0);
    var deleted, _ := reg.Delete("fs1", 0, 0, 0);
    var gone, _ := reg.Lookup("fs1");
    rcs := [created, again, exported, refused, unexported, deleted, gone];
  }
}
