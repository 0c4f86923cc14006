# EFS filesystem registry and KVSFS file handles, in Dafny

This project models two cooperating pieces of the cortx-posix filesystem,
whose state lives in a key-value store:

- **The filesystem registry and lifecycle** (`efs/src/fs/fs.c`), module
  `FsRegistry`. The process-wide list `fs_list` becomes the class `Registry`
  with one field, `fsList: seq<FsRecord>`. The head of the list is the most
  recent insert. A record (`FsRecord`) holds a namespace (name and id), an
  optional tree handle and an optional export binding (tenant). The class
  covers these operations:
  - lookup by exact name;
  - startup population;
  - startup export reconciliation;
  - filesystem create, open and delete;
  - export create and delete;
  - the visitor scan;
  - teardown.

  An update that the C code makes to a record in place is
  `fsList := fsList[i := fsList[i].(field := …)]`. A pointer to a record is an
  index into `fsList`.
- **The per-file handle state machine** of the NFS-Ganesha KVSFS backend
  (`src/nfs-ganesha/FSAL_KVSFS/file.c`), module `KvsfsFile`. The class
  `FileHandle` has the fields `openflags`, `fd` and `savedStat`. Its methods
  are `Open`, `Status`, `Read`, `Write`, `Commit`, `Close` and `Lock`.

Every call into an external store is a parameter of the operation. This
covers the namespace store, the tree store, the tenant catalog, `kvsns2_*`,
`kvsns_getattr`, `kvsns_lock_op` and the filesystem-context lookup. Such a
parameter has type `Rc`: 0 for success or a negative errno. An allocation is
a `bool` parameter, and a value the store hands back (a namespace id, a tree
handle, a descriptor, an attribute snapshot) is a parameter too.

Registry operations return `calls`, the store calls they attempted in order.
This lets a contract state two things: a failure stops the sequence, and the
steps already done are not undone. File operations return their
out-parameters as `Option`, where `None` means "not written".

The registry's invariant is `NamesDistinct`: no two records share a name.
Every mutating method preserves it. The startup scan preserves it when the
scanned name is not already registered. Lookup returns the first match
(`FindFirst`), so it is well defined even without the invariant.

Points where the code behaves differently from what a reader of its
interface might expect, all modelled as the code does them:

- Error codes. A missing filesystem is `-ENOENT`. An exported filesystem
  refused by delete is `-EINVAL`, not an error of its own. An
  already-exported filesystem refused by export create is `-EEXIST`.
- Conflicting locks. `kvsfs_lock_op` takes a `conflicting_lock` slot, and a
  lock test insists that it is non-NULL (file.c:296-300), but the code never
  writes it: the store's `conflict_lock` is a local that is discarded. It
  also ignores the lock owner `p_owner` and only logs `lock_reclaim`. `Lock`
  therefore has no conflict output and no owner parameter.
- Lock precondition cascade. Besides an unsupported lock type, the code also
  refuses an unsupported lock operation with NOTSUPP, after the two FAULT
  checks.
- Startup records. `fs_ns_scan_cb` never assigns the export binding of the
  record it allocates, while `efs_fs_create` sets it to NULL (fs.c:233).
  `AddScanned` models this as written: the binding is a `leftover` input
  standing for the allocator's contents (see Findings).

## Model

| member | source | states |
|---|---|---|
| FsRegistry.FindFirst | efs/src/fs/fs.c:51-75 | the index returned holds the queried name and no earlier record does; None exactly when no record has the name |
| FsRegistry.Registry.Lookup | efs/src/fs/fs.c:51-75 | returns 0 and the first record in list order whose name equals the query, else -ENOENT and no record; never changes the list |
| FsRegistry.LookupFindsUnique | efs/src/fs/fs.c:51-75 | with distinct names, looking up a record's name yields exactly that record |
| FsRegistry.Registry.AddScanned | efs/src/fs/fs.c:77-99 | a scanned namespace is prepended as a record with no tree handle and, as written, whatever binding the allocator left (none only when that was null); a failed allocation skips it and leaves the list unchanged; distinct names stay distinct when the name was new |
| FsRegistry.Registry.BindScannedTenant | efs/src/fs/fs.c:101-137 | a null tenant or a tenant with no filesystem of its name gives -ENOENT and leaves the registry unchanged; otherwise exactly that record's binding becomes the tenant |
| FsRegistry.Registry.EndpointFini | efs/src/fs/fs.c:157-168 | every record's binding becomes null, everything else and the list length and order are kept, and 0 is returned |
| FsRegistry.Registry.FsFini | efs/src/fs/fs.c:170-185 | bindings are detached first, then every record is released in list order and the list ends empty |
| FsRegistry.IsEmpty | efs/src/fs/fs.c:38-43 | the emptiness check is a stub that always answers 0, so it never refuses a delete |
| FsRegistry.EndpointInfo | efs/src/fs/fs.c:441-449 | no endpoint info exactly when the record has no binding; otherwise the info of its tenant |
| FsRegistry.Entries | efs/src/fs/fs.c:194-198 | the scan entry of each record carries its name, no endpoint info exactly when it is unexported, and its tenant's info when it is exported |
| FsRegistry.Registry.ScanList | efs/src/fs/fs.c:187-204 | records are visited in list order; 0 means all were visited and accepted; otherwise the result is the first nonzero visitor answer and no later record was visited |
| FsRegistry.Registry.Create | efs/src/fs/fs.c:206-277 | an existing name gives -EEXIST and no store call; an allocation failure gives -ENOMEM; namespace, tree and root creation run in that order and the first failure is returned without undoing the earlier ones; only full success prepends the new unexported record, which lookup then finds first; the registry is otherwise unchanged and names stay distinct |
| FsRegistry.PrependKeepsDistinct | efs/src/fs/fs.c:206-277 | prepending a record whose name is not registered keeps names distinct and makes it the lookup result |
| FsRegistry.ExportRefusal | efs/src/fs/fs.c:288-300 | export create is refused with -ENOENT exactly when the filesystem is missing and with -EEXIST exactly when it is already exported |
| FsRegistry.Registry.EndpointCreate | efs/src/fs/fs.c:279-330 | after the refusals, creates a tenant carrying the filesystem's namespace id and options; on success only that record's binding changes, on failure nothing does |
| FsRegistry.SameNamesSameLookup | efs/src/fs/fs.c:321-323 | changing a record's binding or tree handle keeps every lookup answer and the distinctness of names |
| FsRegistry.UnexportRefusal | efs/src/fs/fs.c:340-353 | export delete proceeds exactly when the filesystem exists and is exported; otherwise -ENOENT |
| FsRegistry.Registry.EndpointDelete | efs/src/fs/fs.c:332-388 | after the refusals, deletes the bound tenant; on success only that record's binding becomes null, on failure the binding is kept |
| FsRegistry.DeleteRefusal | efs/src/fs/fs.c:396-415 | delete is refused with -ENOENT exactly when the filesystem is missing, -EINVAL exactly when it is exported, and the emptiness stub never refuses |
| FsRegistry.RemoveAt | efs/src/fs/fs.c:423-425 | unlinking drops exactly one record and keeps the others in order |
| FsRegistry.RemoveKeepsDistinct | efs/src/fs/fs.c:423-425 | unlinking keeps names distinct and the removed name is no longer found |
| FsRegistry.Registry.Delete | efs/src/fs/fs.c:390-433 | refusals leave the registry unchanged with no store call; root delete, tree delete, unlink and namespace delete run in order; a root or tree failure leaves the list unchanged; once the tree is gone exactly the named record is unlinked, even if the namespace delete then fails, and lookup no longer finds it |
| FsRegistry.Registry.Open | efs/src/fs/fs.c:451-487 | -ENOENT for an unknown name; a record without a tree handle gets one, or -ENOMEM when that allocation fails; otherwise the record is returned with the tree initialisation's result |
| FsRegistry.ScanLeftoverBlocksDelete | efs/src/fs/fs.c:77-99 | as written, a leftover binding on a scanned record makes delete fail with -EINVAL and export create with -EEXIST |
| FsRegistry.ScannedRecordIsUnexported | efs/src/fs/fs.c:77-99 | a scanned record with its binding cleared is unexported: delete and export create proceed, export delete is -ENOENT |
| FsRegistry.ExportLifecycle | efs/src/fs/fs.c:206-433 | create, duplicate create, export, scan, delete while exported, unexport, delete and lookup answer 0, -EEXIST, 0, -EINVAL, 0, 0, -ENOENT, and the scan shows the binding |
| KvsfsFile.ErrorStatus | src/nfs-ganesha/FSAL_KVSFS/file.c:85-89 | a nonzero store answer is never reported as success |
| KvsfsFile.FileHandle.Open | src/nfs-ganesha/FSAL_KVSFS/file.c:49-92 | requires a closed handle; a context or open failure leaves it closed and unchanged; after a successful open it has the requested flags and the new descriptor, even if the attribute snapshot then fails |
| KvsfsFile.FileHandle.Status | src/nfs-ganesha/FSAL_KVSFS/file.c:98-106 | returns the handle's open flags, CLOSED exactly when it is not open, without changing it |
| KvsfsFile.FileHandle.Read | src/nfs-ganesha/FSAL_KVSFS/file.c:112-160 | a negative store answer is an error that writes neither out-parameter; 0 bytes is end of file with amount 0; a positive count is that amount and not end of file; end of file exactly when the amount is 0 |
| KvsfsFile.FileHandle.Write | src/nfs-ganesha/FSAL_KVSFS/file.c:166-203 | a negative store answer is an error that writes nothing; otherwise the amount is the store's count and the stable flag is written as false; never reported stable |
| KvsfsFile.FileHandle.Commit | src/nfs-ganesha/FSAL_KVSFS/file.c:210-214 | always succeeds and changes nothing |
| KvsfsFile.FileHandle.Close | src/nfs-ganesha/FSAL_KVSFS/file.c:222-250 | a context failure changes nothing; a closed handle is a successful no-op; an open handle always ends closed, returning the store's close error if any |
| KvsfsFile.RangeEnd | src/nfs-ganesha/FSAL_KVSFS/file.c:330-331 | the end of [start, start + length) in 64-bit arithmetic is exactly length bytes after start when the sum does not wrap, and falls below start when it does |
| KvsfsFile.FileHandle.Lock | src/nfs-ganesha/FSAL_KVSFS/file.c:264-345 | the checks are ordered: context error; FAULT for a closed handle or negative owner pid; FAULT for a test without a conflict slot; NOTSUPP for another operation, then for another lock type; then the store gets the op, R as read-only, W as read-write, and the range [start, start + length); nothing changes on the handle |
| KvsfsFile.OpenReadClose | src/nfs-ganesha/FSAL_KVSFS/file.c:49-250 | open, a 5-byte read, a 0-byte read and two closes all succeed; only the 0-byte read is end of file, and the handle ends closed |

## Left out

- External stores. These are not modelled beyond their return code and the
  values they hand back:
  - the namespace store (`ns_*`);
  - the tree store (`kvtree_*`, `efs_tree_create_root`, `efs_tree_delete_root`);
  - the tenant catalog (`tenant_*`);
  - `kvsns2_*`, `kvsns_getattr` and `kvsns_lock_op`.
- Lock conflict semantics. These are delegated to `kvsns_lock_op`, so the
  lock round trip between two owners is not modelled. The store's conflict
  output is discarded by the code.
- Startup drivers. `efs_fs_init` and `efs_endpoint_init` only hand their
  callbacks to `ns_scan` and `tenant_scan`, which are external. The callbacks
  are modelled as `AddScanned` and `BindScannedTenant`.
- FsRegistry.Registry.BindScannedTenant: the source aborts on the
  inconsistency through `dassert`. The model instead returns the lookup's
  -ENOENT and leaves the registry unchanged.
- Memory management. `malloc`/`free`/`memcpy` and `container_of` are not
  modelled, and neither are the namespace copies leaked on failure paths.
  The unchecked copy allocation in `efs_fs_create` (line 231) is not
  modelled.
- Aliasing. The record pointers returned by lookup and open are indices, so
  aliasing through them is not modelled.
- `efs_fs_close`, `kvtree_init`/`kvtree_fini`, `efs_get_ns_id` and
  `efs_fs_get_name`. The getters are field reads of the record.
- Namespace id width. The id is a `nat`, not a 16-bit value, because no
  operation does arithmetic on it.
- `tenant_get_info`. The export information of a bound record is modelled
  as its tenant.
- Adapter glue. Credentials, the `op_ctx` globals, `fsalstat` encoding and
  `kvsfs_lru_cleanup` (a no-op) are not modelled. `posix2fsal_error` is
  modelled as a symbolic encoding of the errno (`FromErrno`), with 0
  mapped to no error.
- Data buffers. Read and write transfer no modelled bytes: the store's
  answer is the input, and offset and buffer size do not constrain it.
- KvsfsFile.FileHandle.Open: when the attribute snapshot fails, the old
  snapshot is kept. The store may in fact have partly overwritten it.
- Opening with flags equal to `FSAL_O_CLOSED`. This is modelled as written:
  the descriptor is open while the handle reads as closed.
- Concurrency. Callers serialise registry and handle operations, and the
  code has no internal locking.

## Findings

| source | as written | input that shows it | evidently intended | confidence | as-written member | corrected member |
|---|---|---|---|---|---|---|
| efs/src/fs/fs.c:77-99 | `fs_ns_scan_cb` allocates the record with `malloc` and never sets `tenant` (`AddScanned` takes it as its `leftover` input) | a node whose fresh memory holds a non-NULL `tenant`, for a filesystem with no catalog entry: it reads as exported, so `efs_fs_delete` returns -EINVAL and `efs_endpoint_create` returns -EEXIST | `tenant = NULL`, as `efs_fs_create` sets it (line 233) | not executed; medium (depends on allocator contents) | FsRegistry.ScanLeftoverBlocksDelete | FsRegistry.ScannedRecordIsUnexported |
