/** ngx_open_file_cache.c without vnode events: cached descriptors with reference counts, an index by name, and a queue
    in order of use. The index is a map here, and each look at the file system one step with any result. A record made
    for an error leaves some fields as the memory had them, so they may be anything. */
module OpenFileCache {

  /** NGX_INVALID_FILE, and the address of no record. */
  const INVALID: int := -1
  const NOBODY: int := -1

  /** ngx_cached_open_file_t */
  datatype File = File(
    name: string, created: int, accessed: int, fd: int, uniq: int, err: int, symlinks: int, uses: nat, count: int,
    close: bool, isDir: bool)

  /** What a look at the file system found: a regular file with an open descriptor, a directory, or an error. */
  datatype Found = Found(fd: int, uniq: int, err: int, isDir: bool)
  {
    predicate Regular() { err == 0 && !isDir }

    predicate Fit() { Regular() <==> fd != INVALID }
  }

  /** The fields of a record are set from what was found. */
  function Filled(g: File, a: Found, symlinks: int, now: int): File {
    var h := g.(fd := a.fd, err := a.err, symlinks := symlinks, created := now);
    if a.err != 0 then h
    else h.(uniq := a.uniq, close := false, isDir := a.isDir, count := if a.isDir then g.count else g.count + 1)
  }

  /** The records that are allocated by address, the index, the queue with the latest used first, the open descriptors
      with the records that hold them, the cleanups to come by record, and the latest time seen. */
  datatype State = State(
    files: map<int, File>, tree: map<string, int>, queue: seq<int>, owner: map<int, int>,
    cleanups: multiset<int>, clock: int)
  {
    ghost predicate Listed(f: int)
      requires f in files
    {
      files[f].name in tree && tree[files[f].name] == f
    }

    /** A record, its descriptor and its users. */
    ghost predicate FileOk(f: int)
      requires f in files
    {
      && f != NOBODY && files[f].count == cleanups[f]
      && (if files[f].fd == INVALID then files[f].count == 0 else files[f].fd in owner && owner[files[f].fd] == f)
      && (if Listed(f) then (files[f].err == 0 ==> !files[f].close)
         && (files[f].err != 0 || files[f].isDir ==> files[f].fd == INVALID)
          else files[f].close && files[f].count > 0)
    }

    ghost predicate OwnerOk(fd: int)
      requires fd in owner
    {
      fd != INVALID && owner[fd] in files && files[owner[fd]].fd == fd
    }

    ghost predicate NameOk(name: string)
      requires name in tree
    {
      tree[name] in files && files[tree[name]].name == name
    }

    /** An element of the queue. */
    ghost predicate QueuedOk(i: int, out: int)
      requires 0 <= i < |queue|
    {
      queue[i] in files && Listed(queue[i]) && queue[i] != out && files[queue[i]].accessed <= clock
    }

    ghost predicate InOrder(i: int, j: int)
      requires 0 <= i < |queue| && 0 <= j < |queue|
    {
      queue[i] != queue[j] && queue[i] in files && queue[j] in files
        && files[queue[i]].accessed >= files[queue[j]].accessed
    }

    ghost predicate InQueue(name: string, out: int)
      requires name in tree
    {
      tree[name] == out || tree[name] in queue
    }

    /** Everything is in order, but that the record `out` of the index is off the queue, if it is not NOBODY. */
    ghost predicate Sound(out: int) {
      && (forall f {:trigger FileOk(f)} :: f in files ==> FileOk(f))
      && (forall fd {:trigger OwnerOk(fd)} :: fd in owner ==> OwnerOk(fd))
      && (forall name {:trigger NameOk(name)} :: name in tree ==> NameOk(name))
      && (forall f :: f in cleanups ==> f in files)
      && (forall i {:trigger QueuedOk(i, out)} :: 0 <= i < |queue| ==> QueuedOk(i, out))
      && (forall i, j {:trigger InOrder(i, j)} :: 0 <= i < j < |queue| ==> InOrder(i, j))
      && (forall name {:trigger InQueue(name, out)} :: name in tree ==> InQueue(name, out))
      && |queue| + (if out == NOBODY then 0 else 1) == |tree|
      && (out != NOBODY ==> out in files && Listed(out))
    }

    ghost predicate Valid() {
      Sound(NOBODY)
    }

    lemma NoInvalid(out: int)
      requires Sound(out)
      ensures INVALID !in owner && owner - {INVALID} == owner
    {
      forall fd | fd in owner ensures fd != INVALID {
        assert OwnerOk(fd);
      }
    }

    /** A record without a descriptor owns none. */
    lemma NoOwner(f: int)
      requires Sound(f) && f != NOBODY
      ensures INVALID !in owner && FileOk(f)
    {
      forall fd | fd in owner ensures fd != INVALID {
        assert OwnerOk(fd);
      }
    }

    lemma FileAt(f: int)
      requires Valid() && f in files
      ensures FileOk(f)
    {
    }

    /* ---- the steps ---- */

    /** ngx_queue_remove */
    function Taken(i: nat): State
      requires i < |queue|
    {
      this.(queue := queue[..i] + queue[i + 1..])
    }

    lemma TakenSound(i: nat)
      requires Valid() && i < |queue|
      ensures Taken(i).Sound(queue[i])
    {
      var after := Taken(i);
      assert QueuedOk(i, NOBODY);
      forall f | f in after.files ensures after.FileOk(f) {
        assert FileOk(f);
      }
      forall fd | fd in after.owner ensures after.OwnerOk(fd) {
        assert OwnerOk(fd);
      }
      forall name | name in after.tree ensures after.NameOk(name) {
        assert NameOk(name);
      }
      forall j | 0 <= j < |after.queue| ensures after.QueuedOk(j, queue[i]) {
        var k := if j < i then j else j + 1;
        assert QueuedOk(k, NOBODY);
        assert if k < i then InOrder(k, i) else InOrder(i, k);
      }
      forall j, k | 0 <= j < k < |after.queue| ensures after.InOrder(j, k) {
        assert InOrder(if j < i then j else j + 1, if k < i then k else k + 1);
      }
      assert FileOk(queue[i]);
      forall name | name in after.tree ensures after.InQueue(name, queue[i]) {
        assert InQueue(name, NOBODY);
        if tree[name] != queue[i] {
          var j :| 0 <= j < |queue| && queue[j] == tree[name];
          assert after.queue[if j < i then j else j - 1] == tree[name];
        }
      }
    }

    /** Time goes by. */
    function Later(now: int): State {
      this.(clock := now)
    }

    lemma LaterSound(out: int, now: int)
      requires Sound(out) && now >= clock
      ensures Later(now).Sound(out)
    {
      var after := Later(now);
      forall f | f in after.files ensures after.FileOk(f) {
        assert FileOk(f);
      }
      forall fd | fd in after.owner ensures after.OwnerOk(fd) {
        assert OwnerOk(fd);
      }
      forall name | name in after.tree ensures after.NameOk(name) && after.InQueue(name, out) {
        assert NameOk(name) && InQueue(name, out);
      }
      forall j | 0 <= j < |after.queue| ensures after.QueuedOk(j, out) {
        assert QueuedOk(j, out);
      }
      forall j, k | 0 <= j < k < |after.queue| ensures after.InOrder(j, k) {
        assert InOrder(j, k);
      }
    }

    /** ngx_queue_insert_head */
    function Pushed(f: int, now: int): State
      requires f in files
    {
      this.(queue := [f] + queue, files := files[f := files[f].(accessed := now)], clock := now)
    }

    lemma PushedSound(f: int, now: int)
      requires Sound(f) && f != NOBODY && now >= clock
      ensures Pushed(f, now).Valid()
    {
      var after := Pushed(f, now);
      forall g | g in after.files ensures after.FileOk(g) {
        assert FileOk(g);
      }
      forall fd | fd in after.owner ensures after.OwnerOk(fd) {
        assert OwnerOk(fd);
      }
      forall name | name in after.tree ensures after.NameOk(name) && after.InQueue(name, NOBODY) {
        assert NameOk(name) && InQueue(name, f);
        if tree[name] == f {
          assert after.queue[0] == f;
        } else {
          var j :| 0 <= j < |queue| && queue[j] == tree[name];
          assert after.queue[j + 1] == tree[name];
        }
      }
      forall j | 0 <= j < |after.queue| ensures after.QueuedOk(j, NOBODY) {
        if j > 0 {
          assert QueuedOk(j - 1, f);
          assert FileOk(queue[j - 1]);
        }
      }
      forall j, k | 0 <= j < k < |after.queue| ensures after.InOrder(j, k) {
        assert QueuedOk(k - 1, f);
        if j > 0 {
          assert InOrder(j - 1, k - 1) && QueuedOk(j - 1, f);
        }
      }
    }

    /** A record that is off the queue goes out of the index; it is freed, its descriptor closed, unless it is in use.
        */
    function Dropped(f: int): State
      requires f in files
    {
      var g := files[f];
      if g.count == 0 then this.(tree := tree - {g.name}, files := files - {f}, owner := owner - {g.fd})
      else this.(tree := tree - {g.name}, files := files[f := g.(close := true)])
    }

    lemma DroppedFile(f: int, g: int)
      requires Sound(f) && f != NOBODY && g in Dropped(f).files
      ensures Dropped(f).FileOk(g)
    {
      assert FileOk(f) && NameOk(files[f].name) && FileOk(g);
      if g != f && Listed(g) {
        assert files[g].name != files[f].name;
      }
    }

    lemma DroppedOwner(f: int, fd: int)
      requires Sound(f) && f != NOBODY && fd in Dropped(f).owner
      ensures Dropped(f).OwnerOk(fd)
    {
      assert FileOk(f) && NameOk(files[f].name) && OwnerOk(fd);
    }

    lemma DroppedSound(f: int)
      requires Sound(f) && f != NOBODY
      ensures Dropped(f).Valid() && |Dropped(f).tree| == |tree| - 1
    {
      var after := Dropped(f);
      assert FileOk(f) && NameOk(files[f].name);
      forall g | g in after.files ensures after.FileOk(g) {
        DroppedFile(f, g);
      }
      forall fd | fd in after.owner ensures after.OwnerOk(fd) {
        DroppedOwner(f, fd);
      }
      forall name | name in after.tree ensures after.NameOk(name) && after.InQueue(name, NOBODY) {
        assert NameOk(name) && InQueue(name, f);
      }
      forall x | x in after.cleanups ensures x in after.files {
        assert x in files;
      }
      forall j | 0 <= j < |after.queue| ensures after.QueuedOk(j, NOBODY) {
        assert QueuedOk(j, f);
        assert queue[j] != f;
      }
      forall j, k | 0 <= j < k < |after.queue| ensures after.InOrder(j, k) {
        assert InOrder(j, k) && QueuedOk(j, f) && QueuedOk(k, f);
      }
    }

    /** What holds of the other records when one that is off the queue, and perhaps its descriptor, changes. */
    lemma OneChanged(after: State, f: int, out: int)
      requires Sound(f) && f != NOBODY && out == f
      requires f in after.files && after.FileOk(f) && after.Listed(f)
      requires after.files == files[f := after.files[f]] && after.tree == tree && after.queue == queue
      requires after.clock == clock
      requires after.files[f].name == files[f].name && after.cleanups == cleanups[f := after.cleanups[f]]
      requires forall fd :: fd in after.owner ==> fd in owner || (fd == after.files[f].fd && fd != INVALID)
      requires forall fd :: fd in after.owner && fd in owner ==> after.owner[fd] == owner[fd]
      requires forall fd :: fd in after.owner && fd !in owner ==> after.owner[fd] == f
      requires forall fd :: fd in owner && owner[fd] != f ==> fd in after.owner
      requires forall fd :: fd in after.owner && after.owner[fd] == f ==> fd == after.files[f].fd
      ensures after.Sound(f)
    {
      forall g | g in after.files ensures after.FileOk(g) {
        assert FileOk(g);
      }
      forall fd | fd in after.owner ensures after.OwnerOk(fd) {
        assert fd in owner ==>
          && OwnerOk(fd);
      }
      forall name | name in after.tree ensures after.NameOk(name) && after.InQueue(name, f) {
        assert NameOk(name) && InQueue(name, f);
      }
      forall x | x in after.cleanups ensures x in after.files {
        assert x != f ==>
          && x in cleanups;
      }
      forall j | 0 <= j < |after.queue| ensures after.QueuedOk(j, f) {
        assert QueuedOk(j, f);
      }
      forall j, k | 0 <= j < k < |after.queue| ensures after.InOrder(j, k) {
        assert InOrder(j, k) && QueuedOk(j, f) && QueuedOk(k, f);
      }
    }

    function WithOwner(fd: int, f: int): map<int, int> {
      if fd == INVALID then owner else owner[fd := f]
    }

    /** update: */
    function Put(f: int, a: Found, symlinks: int, now: int): State
      requires f in files
    {
      this.(files := files[f := Filled(files[f], a, symlinks, now)], owner := WithOwner(a.fd, f),
            cleanups := if a.Regular() then cleanups + multiset{f} else cleanups)
    }

    lemma PutSound(f: int, a: Found, symlinks: int, now: int)
      requires Sound(f) && f != NOBODY && a.Fit() && (files[f].fd == INVALID || files[f].fd == a.fd)
      requires a.fd in owner ==> owner[a.fd] == f
      ensures Put(f, a, symlinks, now).Sound(f)
    {
      assert FileOk(f);
      var after := Put(f, a, symlinks, now);
      assert after.cleanups == cleanups[f := after.cleanups[f]];
      forall fd | fd in owner ensures fd != INVALID && (owner[fd] == f ==> fd == files[f].fd) {
        assert OwnerOk(fd);
      }
      OneChanged(after, f, f);
    }

    /** file->uses++ */
    function Used(f: int): State
      requires f in files
    {
      this.(files := files[f := files[f].(uses := files[f].uses + 1)])
    }

    lemma UsedSound(f: int)
      requires Sound(f) && f != NOBODY
      ensures Used(f).Sound(f)
    {
      assert FileOk(f);
      var after := Used(f);
      assert after.cleanups == cleanups[f := after.cleanups[f]];
      forall fd | fd in owner ensures fd != INVALID && (owner[fd] == f ==> fd == files[f].fd) {
        assert OwnerOk(fd);
      }
      OneChanged(after, f, f);
    }

    /** One more user of the descriptor: file->count++ */
    function Lent(f: int): State
      requires f in files
    {
      this.(files := files[f := files[f].(count := files[f].count + 1)], cleanups := cleanups + multiset{f})
    }

    lemma LentSound(f: int)
      requires Sound(f) && f != NOBODY && files[f].fd != INVALID
      ensures Lent(f).Sound(f)
    {
      assert FileOk(f);
      var after := Lent(f);
      assert after.cleanups == cleanups[f := after.cleanups[f]];
      forall fd | fd in owner ensures fd != INVALID && (owner[fd] == f ==> fd == files[f].fd) {
        assert OwnerOk(fd);
      }
      OneChanged(after, f, f);
    }

    /** The descriptor of a record without users is closed. */
    function Shut(f: int): State
      requires f in files
    {
      this.(files := files[f := files[f].(fd := INVALID)], owner := owner - {files[f].fd})
    }

    lemma ShutSound(f: int)
      requires Sound(f) && f != NOBODY && files[f].count == 0
      ensures Shut(f).Sound(f)
    {
      assert FileOk(f);
      var after := Shut(f);
      assert after.cleanups == cleanups[f := after.cleanups[f]];
      forall fd | fd in owner ensures fd != INVALID && (owner[fd] == f ==> fd == files[f].fd) {
        assert OwnerOk(fd);
      }
      OneChanged(after, f, f);
    }

    /** A new record for a name that is not in the index; g holds whatever the memory held. */
    function Created(f: int, g: File, a: Found, symlinks: int, now: int): State {
      this.(files := files[f := Filled(g, a, symlinks, now)], tree := tree[g.name := f], owner := WithOwner(a.fd, f),
            cleanups := if a.Regular() then cleanups + multiset{f} else cleanups)
    }

    lemma CreatedSound(f: int, g: File, a: Found, symlinks: int, now: int)
      requires Valid() && f !in files && f != NOBODY && g.name !in tree && g.count == 0 && a.Fit() && a.fd !in owner
      ensures Created(f, g, a, symlinks, now).Sound(f) && |Created(f, g, a, symlinks, now).tree| == |tree| + 1
    {
      hide FileOk;
      hide QueuedOk;
      hide InOrder;
      hide NameOk;
      hide InQueue;
      hide OwnerOk;
      hide Filled;
      CreatedListed(f, g, a, symlinks, now);
      hide Listed;
      var after := Created(f, g, a, symlinks, now);
      forall h | h in after.files ensures after.FileOk(h) {
        CreatedFile(f, g, a, symlinks, now, h);
      }
      forall fd | fd in after.owner ensures after.OwnerOk(fd) {
        CreatedOwner(f, g, a, symlinks, now, fd);
      }
      CreatedQueue(f, g, a, symlinks, now);
      forall name | name in after.tree ensures after.NameOk(name) && after.InQueue(name, f) {
        CreatedName(f, g, a, symlinks, now, name);
      }
    }

    lemma CreatedListed(f: int, g: File, a: Found, symlinks: int, now: int)
      requires Valid() && g.name !in tree
      ensures Created(f, g, a, symlinks, now).Listed(f) && |Created(f, g, a, symlinks, now).tree| == |tree| + 1
      ensures forall x :: x in Created(f, g, a, symlinks, now).cleanups ==> x in Created(f, g, a, symlinks, now).files
    {
    }

    lemma CreatedOwner(f: int, g: File, a: Found, symlinks: int, now: int, fd: int)
      requires Valid() && f !in files && fd in Created(f, g, a, symlinks, now).owner
      ensures Created(f, g, a, symlinks, now).OwnerOk(fd)
    {
      assert fd in owner ==>
        && OwnerOk(fd);
    }

    lemma CreatedFile(f: int, g: File, a: Found, symlinks: int, now: int, h: int)
      requires Valid() && f !in files && f != NOBODY && g.name !in tree && g.count == 0 && a.Fit() && a.fd !in owner
      requires h in Created(f, g, a, symlinks, now).files
      ensures Created(f, g, a, symlinks, now).FileOk(h)
    {
      assert cleanups[f] == 0;
      assert h in files ==>
        && FileOk(h);
    }

    lemma CreatedName(f: int, g: File, a: Found, symlinks: int, now: int, name: string)
      requires Valid() && f !in files && g.name !in tree && name in Created(f, g, a, symlinks, now).tree
      ensures Created(f, g, a, symlinks, now).NameOk(name) && Created(f, g, a, symlinks, now).InQueue(name, f)
    {
      if name != g.name {
        assert NameOk(name) && InQueue(name, NOBODY);
        assert FileOk(tree[name]);
      }
    }

    lemma CreatedQueue(f: int, g: File, a: Found, symlinks: int, now: int)
      requires Valid() && f !in files && g.name !in tree
      ensures forall j {:trigger Created(f, g, a, symlinks, now).QueuedOk(j, f)} ::
                0 <= j < |queue| ==> Created(f, g, a, symlinks, now).QueuedOk(j, f)
      ensures forall j, k {:trigger Created(f, g, a, symlinks, now).InOrder(j, k)} ::
                0 <= j < k < |queue| ==> Created(f, g, a, symlinks, now).InOrder(j, k)
    {
      hide FileOk;
      var after := Created(f, g, a, symlinks, now);
      forall j | 0 <= j < |after.queue| ensures after.QueuedOk(j, f) {
        assert QueuedOk(j, NOBODY);
      }
      forall j, k | 0 <= j < k < |after.queue| ensures after.InOrder(j, k) {
        assert InOrder(j, k) && QueuedOk(j, NOBODY) && QueuedOk(k, NOBODY);
      }
    }

    /** A directory with the number of the file whose descriptor is held: the descriptor is closed, or it stays with the
        old record, and in both cases the record of the name keeps it too. */
    function Mistaken(f: int, g: File, address: int, a: Found, symlinks: int, now: int): State
      requires f in files
    {
      if files[f].count == 0 then
        var s := Shut(f);
        s.(files := s.files[f := Filled(s.files[f], a, symlinks, now)]).Pushed(f, now)
      else
        var s := Dropped(f);
        s.(files := s.files[address := Filled(g, a, symlinks, now)],
          tree := s.tree[g.name := address]).Pushed(address, now)
    }

    /** A record that is used by nobody and holds a descriptor that it does not own. */
    ghost predicate Stray(f: int) {
      && f in files && Listed(f) && files[f].err == 0 && files[f].isDir && files[f].count == 0 && files[f].fd != INVALID
      && (files[f].fd in owner ==> owner[files[f].fd] != f)
    }

    lemma MistakenStray(f: int, g: File, address: int, a: Found, symlinks: int, now: int)
      requires Sound(f) && f != NOBODY && files[f].fd != INVALID && a.fd == files[f].fd && a.err == 0 && a.isDir
      requires address !in files && g.name == files[f].name && g.count == 0
      ensures var t := Mistaken(f, g, address, a, symlinks, now);
              && g.name in t.tree && t.Stray(t.tree[g.name]) && t.files[t.tree[g.name]].fd == files[f].fd
              && t.cleanups == cleanups && t.clock == now
    {
      assert FileOk(f) && NameOk(files[f].name);
      assert OwnerOk(files[f].fd);
    }

    lemma StrayInvalid(f: int)
      requires Stray(f)
      ensures !Valid()
    {
      assert !FileOk(f);
    }

    /** The queue is in order as long as the records in it are what they were. */
    lemma SameQueue(after: State)
      requires Valid() && after.queue == queue && after.tree == tree && after.clock == clock
      requires forall f :: f in files && Listed(f) ==>
        && f in after.files && after.files[f].name == files[f].name && after.files[f].accessed == files[f].accessed
      ensures forall j {:trigger after.QueuedOk(j, NOBODY)} :: 0 <= j < |queue| ==> after.QueuedOk(j, NOBODY)
      ensures forall j, k {:trigger after.InOrder(j, k)} :: 0 <= j < k < |queue| ==> after.InOrder(j, k)
    {
      hide FileOk;
      forall j | 0 <= j < |after.queue| ensures after.QueuedOk(j, NOBODY) {
        assert QueuedOk(j, NOBODY);
      }
      forall j, k | 0 <= j < k < |after.queue| ensures after.InOrder(j, k) {
        assert InOrder(j, k) && QueuedOk(j, NOBODY) && QueuedOk(k, NOBODY);
      }
    }

    /** One user less of a record that stays: of one in the index, or of one with more users. */
    function Released(f: int): State
      requires f in files
    {
      this.(files := files[f := files[f].(count := files[f].count - 1)], cleanups := cleanups - multiset{f})
    }

    lemma ReleasedSound(f: int)
      requires Valid() && f in files && cleanups[f] > 0 && (Listed(f) || files[f].count > 1)
      ensures Released(f).Valid()
    {
      var after := Released(f);
      assert FileOk(f);
      forall g | g in after.files ensures after.FileOk(g) {
        assert FileOk(g);
      }
      forall fd | fd in after.owner ensures after.OwnerOk(fd) {
        assert OwnerOk(fd);
      }
      forall name | name in after.tree ensures after.NameOk(name) && after.InQueue(name, NOBODY) {
        assert NameOk(name) && InQueue(name, NOBODY);
      }
      forall x | x in after.cleanups ensures x in after.files {
        assert x in cleanups;
      }
      SameQueue(after);
    }

    /** The last user of a record that is no longer in the index: its descriptor is closed and it is freed. */
    function Gone(f: int): State
      requires f in files
    {
      this.(files := files - {f}, owner := owner - {files[f].fd}, cleanups := cleanups - multiset{f})
    }

    lemma GoneSound(f: int)
      requires Valid() && f in files && cleanups[f] == 1 && !Listed(f)
      ensures Gone(f).Valid()
    {
      var after := Gone(f);
      assert FileOk(f);
      forall g | g in after.files ensures after.FileOk(g) {
        assert FileOk(g);
      }
      forall fd | fd in after.owner ensures after.OwnerOk(fd) {
        assert OwnerOk(fd);
      }
      forall name | name in after.tree ensures after.NameOk(name) && after.InQueue(name, NOBODY) {
        assert NameOk(name) && InQueue(name, NOBODY);
      }
      forall x | x in after.cleanups ensures x in after.files {
        assert x in cleanups;
      }
      SameQueue(after);
    }
  }

  /** A queue without its first f. */
  function Without(q: seq<int>, f: int): seq<int> {
    if q == [] then [] else if q[0] == f then q[1..] else [q[0]] + Without(q[1..], f)
  }

  lemma {:induction false} WithoutAt(q: seq<int>, f: int, i: nat)
    requires i < |q| && q[i] == f && forall j :: 0 <= j < i ==> q[j] != f
    ensures Without(q, f) == q[..i] + q[i + 1..]
  {
    if i > 0 {
      WithoutAt(q[1..], f, i - 1);
    }
  }

  /** Where a record of the index is in the queue. */
  lemma Position(s: State, f: int) returns (i: nat)
    requires s.Valid() && f in s.files && s.Listed(f)
    ensures i < |s.queue| && s.queue[i] == f && f != NOBODY && Without(s.queue, f) == s.Taken(i).queue
  {
    assert s.InQueue(s.files[f].name, NOBODY) && s.FileOk(f);
    i :| i < |s.queue| && s.queue[i] == f;
    forall j | 0 <= j < i ensures s.queue[j] != f {
      assert s.InOrder(j, i);
    }
    WithoutAt(s.queue, f, i);
  }

  /** Descriptors of records in use stay what they are. */
  ghost predicate Kept(before: State, after: State) {
    forall f {:trigger after.files[f]} {:trigger before.files[f]} ::
      f in before.files && before.files[f].count > 0 && f in after.files && after.files[f].count > 0 ==>
        after.files[f].fd == before.files[f].fd
  }

  /** Records, names and descriptors may have gone; what is left is the same. */
  ghost predicate Lost(before: State, after: State) {
    && after.cleanups == before.cleanups && after.clock == before.clock
    && (forall f :: f in after.files ==> f in before.files && SameUse(before.files[f], after.files[f]))
    && (forall fd :: fd in after.owner ==> fd in before.owner)
    && forall name :: name in after.tree ==> name in before.tree && after.tree[name] == before.tree[name]
  }

  /** A record is the same, but that it may have been marked to be closed. */
  predicate SameUse(g: File, h: File) {
    h == g.(close := h.close)
  }

  /** All records but those at some addresses are the same. */
  ghost predicate Aside(before: State, after: State, out: set<int>) {
    forall g {:trigger after.files[g]} :: g in after.files && g !in out ==>
      g in before.files && SameUse(before.files[g], after.files[g])
  }

  lemma AsideMore(s: State, mid: State, t: State, a: set<int>, b: set<int>)
    requires Aside(s, mid, a) && Aside(mid, t, b)
    ensures Aside(s, t, a + b)
  {
    forall g | g in t.files && g !in a + b ensures g in s.files && SameUse(s.files[g], t.files[g]) {
      assert g in mid.files && SameUse(mid.files[g], t.files[g]);
    }
  }

  /** Nobody got or gave back a descriptor. */
  ghost predicate Steady(before: State, after: State) {
    && after.cleanups == before.cleanups
    && forall f :: f in after.files ==>
         && f in before.files && after.files[f].count == before.files[f].count
         && (after.files[f].count > 0 ==> after.files[f].fd == before.files[f].fd)
  }

  lemma LostKept(before: State, mid: State, after: State)
    requires Lost(before, mid) && Lost(mid, after)
    ensures Lost(before, after) && Kept(before, after)
  {
  }

  /** While a cleanup for a record is to come, its descriptor is open. */
  lemma InUse(before: State, after: State, f: int)
    requires before.Valid() && after.Valid() && Kept(before, after) && before.cleanups[f] > 0 && after.cleanups[f] > 0
    ensures f in before.files && f in after.files && before.files[f].fd == after.files[f].fd
    ensures after.files[f].fd in after.owner && after.owner[after.files[f].fd] == f
  {
    assert f in before.cleanups && f in after.cleanups;
    assert before.FileOk(f) && after.FileOk(f);
  }

  /** What the caller asks for in ngx_open_file_info_t: a unique number or 0, how long a record is good, how many uses
      keep a descriptor open, whether errors are cached, and how symbolic links are treated. */
  datatype Request = Request(uniq: int, valid: int, minUses: nat, errors: bool, symlinks: int)

  /** What is there when the file system is looked at: a file, with the descriptor that opening it would give, a
      directory, or an error; error 0 is a descriptor that could not be examined. */
  datatype Probe = Regular(fd: int, uniq: int) | Directory(uniq: int) | Failed(err: int)

  /** ngx_open_and_stat_file: a descriptor the caller has is kept as long as the unique number is the same, even if
      there is a directory now: numbers are unique in one file system only. */
  function Stat(fd: int, uniq: int, probe: Probe): Found {
    match probe
    case Regular(newFd, newUniq) => Found(if fd != INVALID && uniq == newUniq then fd else newFd, newUniq, 0, false)
    case Directory(newUniq) => Found(if fd != INVALID && uniq == newUniq then fd else INVALID, newUniq, 0, true)
    case Failed(err) => Found(INVALID, uniq, err, false)
  }

  /** What the caller gets: a descriptor, with the record whose cleanup is to be run once; a directory; or an error. */
  datatype Answer = Open(fd: int, file: int) | Dir | Error(err: int)

  /** What a record says. */
  function AnswerOf(g: File, f: int): Answer {
    if g.err != 0 then Error(g.err) else if g.isDir then Dir else Open(g.fd, f)
  }

  /** A record whose descriptor was closed for too little use says nothing. */
  predicate Known(g: File) {
    g.fd != INVALID || g.err != 0 || g.isDir
  }

  /** Whether the file system need not be looked at. */
  predicate Trusted(g: File, of: Request, now: int) {
    && Known(g) && (of.uniq == 0 || of.uniq == g.uniq) && now - g.created < of.valid && of.symlinks == g.symlinks
  }

  /** The answer is an error that is not to be cached. */
  predicate Refused(of: Request, probe: Probe) {
    probe.Failed? && (probe.err == 0 || !of.errors)
  }

  /** What the file system says to one who holds a descriptor, or none, for the file with a unique number. */
  function Looked(fd: int, uniq: int, probe: Probe, f: int): Answer {
    match probe
    case Regular(newFd, newUniq) => Open(if fd != INVALID && uniq == newUniq then fd else newFd, f)
    case Directory(_) => Dir
    case Failed(err) => Error(err)
  }

  /** An answer without the record. */
  function Bare(a: Answer): Answer {
    if a.Open? then a.(file := NOBODY) else a
  }

  /** What is to be answered: what the record says while it can be trusted, and else what the file system says. */
  ghost function Reply(s: State, name: string, of: Request, probe: Probe, now: int): Answer {
    if name in s.tree && s.tree[name] in s.files then
      var g := s.files[s.tree[name]];
      if Trusted(g, of, now) then AnswerOf(g, NOBODY) else Looked(g.fd, g.uniq, probe, NOBODY)
    else
      Looked(INVALID, 0, probe, NOBODY)
  }

  /** Whether the name is in the index afterwards. */
  ghost predicate Keeps(s: State, name: string, of: Request, probe: Probe, now: int) {
    !Refused(of, probe) || (name in s.tree && s.tree[name] in s.files && Trusted(s.files[s.tree[name]], of, now))
  }

  /** The name is in the index, its record the latest used; a descriptor that is given is that of the record. */
  ghost predicate AtHead(s: State, name: string, a: Answer) {
    && name in s.tree && s.queue != [] && s.queue[0] == s.tree[name] && s.tree[name] in s.files
    && s.files[s.tree[name]].accessed == s.clock
    && (a.Open? ==> a.file == s.tree[name] && s.files[a.file].fd == a.fd && s.cleanups[a.file] > 0)
  }

  /** What a record holds once it was set from a look at the file system. */
  function Recorded(g: File, fd: int, uniq: int, probe: Probe, symlinks: int, now: int): File {
    Filled(g, Stat(fd, uniq, probe), symlinks, now).(accessed := now)
  }

  /** A new record; the rest is what the memory holds. */
  function NewFile(memory: File, name: string): File {
    memory.(name := name, uses := 1, count := 0)
  }

  /** A record is used again unless it is for another file that somebody still reads. */
  predicate Stays(g: File, probe: Probe) {
    !Known(g) || g.isDir || g.err != 0 || (probe.Regular? && probe.uniq == g.uniq) || g.count == 0
  }

  /** One user more, if there is a descriptor. */
  function LentFile(g: File, now: int): File {
    g.(accessed := now, count := if AnswerOf(g, NOBODY).Open? then g.count + 1 else g.count)
  }

  /** The record of the name, and all that it holds, afterwards. */
  ghost predicate Noted(s: State, t: State, name: string, of: Request, probe: Probe, now: int, address: int,
                        memory: File) {
    && name in t.tree && t.tree[name] in t.files
    && var f, h := t.tree[name], t.files[t.tree[name]];
       if name in s.tree && s.tree[name] in s.files then
         var g := s.files[s.tree[name]];
         var u := g.(uses := g.uses + 1);
         if Trusted(g, of, now) then f == s.tree[name] && h == LentFile(u, now)
         else if Stays(g, probe) then f == s.tree[name] && h == Recorded(u, g.fd, g.uniq, probe, of.symlinks, now)
         else f == address && h == Recorded(NewFile(memory, name), g.fd, g.uniq, probe, of.symlinks, now)
       else f == address && h == Recorded(NewFile(memory, name), INVALID, of.uniq, probe, of.symlinks, now)
  }

  /** The file system shows a directory with the number of the file whose descriptor a record holds. */
  predicate Clashes(g: File, probe: Probe) {
    g.fd != INVALID && probe.Directory? && probe.uniq == g.uniq
  }

  /** The record of the name is compared with the file system, and such a directory is there. */
  ghost predicate Clash(s: State, name: string, of: Request, probe: Probe, now: int) {
    && name in s.tree && s.tree[name] in s.files
    && !Trusted(s.files[s.tree[name]], of, now) && Clashes(s.files[s.tree[name]], probe)
  }

  /** The records that a call for a name may change. */
  function Touched(s: State, name: string, address: int): set<int> {
    if name in s.tree then {s.tree[name], address} else {address}
  }

  /** Everything that an opening promises. */
  ghost predicate Opened(s: State, t: State, name: string, of: Request, probe: Probe, now: int, address: int,
                         memory: File,
                         max: int, a: Answer) {
    && t.Valid() && Kept(s, t) && t.clock == now && Bare(a) == Reply(s, name, of, probe, now)
    && (if Keeps(s, name, of, probe, now) then AtHead(t, name, a) && Noted(s, t, name, of, probe, now, address, memory)
        else name !in t.tree)
    && Others(s.tree, t.tree, name, max) && Aside(s, t, Touched(s, name, address))
    && t.cleanups == (if a.Open? then s.cleanups + multiset{a.file} else s.cleanups)
    && (a.Open? ==> a.fd in t.owner && t.owner[a.fd] == a.file)
  }

  /** The record is used again, or a new one takes its place. */
  ghost predicate Replaced(s: State, t: State, name: string, f: int, of: Request, probe: Probe, now: int, address: int,
                           memory: File, max: int, a: Answer) {
    && f in s.files && AtHead(t, name, a) && Others(s.tree, t.tree, name, max)
    && t.tree[name] == (if Stays(s.files[f], probe) then f else address)
    && t.files[t.tree[name]] == Recorded(if Stays(s.files[f], probe) then s.files[f] else NewFile(memory, name),
                                         s.files[f].fd, s.files[f].uniq, probe, of.symlinks, now)
  }

  /** What a comparison with the file system promises. */
  ghost predicate Retested(s: State, t: State, name: string, f: int, of: Request, probe: Probe, now: int, address: int,
                           memory: File, max: int, a: Answer) {
    && f in s.files && t.Valid() && Kept(s, t) && t.clock == now
    && Bare(a) == Looked(s.files[f].fd, s.files[f].uniq, probe, NOBODY)
    && (if Refused(of, probe) then t.tree == s.tree - {name}
       else Replaced(s, t, name, f, of, probe, now, address, memory, max, a))
    && Aside(s, t, {f, address})
    && t.cleanups == if a.Open? then s.cleanups + multiset{a.file} else s.cleanups
  }

  /** The record of the name holds a descriptor that is not its own. */
  ghost predicate Astray(s: State, t: State, name: string) {
    && name in s.tree && s.tree[name] in s.files && name in t.tree && t.Stray(t.tree[name])
    && t.files[t.tree[name]].fd == s.files[s.tree[name]].fd && t.cleanups == s.cleanups
  }

  /** An example: a file with number 7 was read through descriptor 3, and its name stands for a directory with number 7
      now. Descriptor 3 is closed, and the record keeps it; when the name cannot be looked at the next time, the record
      goes, and as nobody uses it its descriptor 3, which is not open, is closed again. */
  lemma SameNumber(memory: File)
    ensures var g := File("a", 0, 0, 3, 7, 0, 0, 1, 0, false, false);
            var s := State(map[1 := g], map["a" := 1], [1], map[3 := 1], multiset{}, 0);
            var of, probe := Request(0, 0, 1, false, 0), Directory(7);
            var t := s.Taken(0).Used(1).Mistaken(1, NewFile(memory, "a"), 2, Stat(3, 7, probe), 0, 0);
            && s.Valid() && Clash(s, "a", of, probe, 0) && !t.Valid()
            && 1 in t.files && t.files[1].fd == 3 && t.files[1].count == 0 && 3 !in t.owner
  {
    var g := File("a", 0, 0, 3, 7, 0, 0, 1, 0, false, false);
    var s := State(map[1 := g], map["a" := 1], [1], map[3 := 1], multiset{}, 0);
    assert s.FileOk(1);
    var s1 := s.Taken(0).Used(1);
    s.TakenSound(0);
    s.Taken(0).UsedSound(1);
    var t := s1.Mistaken(1, NewFile(memory, "a"), 2, Stat(3, 7, Directory(7)), 0, 0);
    s1.MistakenStray(1, NewFile(memory, "a"), 2, Stat(3, 7, Directory(7)), 0, 0);
    t.StrayInvalid(1);
  }

  /* ---- how long a record is good ---- */

  /** What the last look at the file system for a record showed, when it was, and how symbolic links were treated. */
  datatype Sight = Sight(at: int, symlinks: int, found: Found)

  /** A record holds what was seen; its descriptor may have been closed since. */
  predicate Says(g: File, l: Sight) {
    && g.created == l.at && g.symlinks == l.symlinks && g.err == l.found.err
    && (l.found.err == 0 ==>
          g.uniq == l.found.uniq && g.isDir == l.found.isDir && (g.fd == l.found.fd || g.fd == INVALID))
  }

  /** So does every record of the index. */
  ghost predicate Recalls(s: State, seen: map<int, Sight>) {
    forall n {:trigger RecallsAt(s, seen, n)} :: n in s.tree ==> RecallsAt(s, seen, n)
  }

  ghost predicate RecallsAt(s: State, seen: map<int, Sight>, n: string)
    requires n in s.tree
  {
    s.tree[n] in s.files && s.tree[n] in seen && Says(s.files[s.tree[n]], seen[s.tree[n]])
  }

  /** The name has a record with a descriptor, an error or a directory, the last look for it was less than the time ago
      for which the caller wants it to be good, it is for the file the caller wants, if the caller wants a certain one,
      and symbolic links were treated as the caller wants. */
  ghost predicate Good(s: State, seen: map<int, Sight>, name: string, of: Request, now: int) {
    && name in s.tree && s.tree[name] in s.files && s.tree[name] in seen
    && var g, l := s.files[s.tree[name]], seen[s.tree[name]];
       && (g.fd != INVALID || l.found.err != 0 || l.found.isDir)
       && now - l.at < of.valid && l.symlinks == of.symlinks && (of.uniq == 0 || of.uniq == g.uniq)
  }

  /** An answer that is what was seen for the record. */
  ghost predicate FromRecord(s: State, t: State, seen: map<int, Sight>, seen': map<int, Sight>, name: string, a: Answer)
  {
    && seen' == seen && name in s.tree && s.tree[name] in seen && name in t.tree && t.tree[name] == s.tree[name]
    && var l := seen[s.tree[name]].found;
       a == if l.err != 0 then Error(l.err) else if l.isDir then Dir else Open(l.fd, s.tree[name])
  }

  /** The descriptor that is held for the file with a number, or another one. */
  ghost function Held(s: State, name: string, uniq: int, fd: int): int {
    if name in s.tree && s.tree[name] in s.files && s.files[s.tree[name]].fd != INVALID
       && s.files[s.tree[name]].uniq == uniq
    then s.files[s.tree[name]].fd else fd
  }

  /** An answer that is what the file system shows now; an error is kept if the caller wants errors. */
  ghost predicate FromSystem(s: State, t: State, name: string, of: Request, probe: Probe, a: Answer) {
    && (name in t.tree <==> !(probe.Failed? && (probe.err == 0 || !of.errors)))
    && match probe
       case Failed(err) => a == Error(err)
       case Directory(_) => a == Dir
       case Regular(fd, uniq) => a.Open? && a.fd == Held(s, name, uniq, fd)
  }

  /** What will have been seen. */
  ghost predicate SeenNow(t: State, seen': map<int, Sight>, name: string, of: Request, probe: Probe, now: int,
                          a: Answer)
  {
    name in t.tree ==>
      && t.tree[name] in seen'
      && var l := seen'[t.tree[name]];
         && l.at == now && l.symlinks == of.symlinks && (a.Open? ==> l.found.fd == a.fd)
         && l.found.err == (if probe.Failed? then probe.err else 0)
         && (!probe.Failed? ==> l.found.uniq == probe.uniq && l.found.isDir == probe.Directory?)
  }

  /** A record counts the calls that found it. */
  ghost predicate CountsUses(s: State, t: State, name: string) {
    name in t.tree ==>
      && t.tree[name] in t.files
      && t.files[t.tree[name]].uses ==
         if name in s.tree && s.tree[name] == t.tree[name] && s.tree[name] in s.files
         then s.files[s.tree[name]].uses + 1 else 1
  }

  /** A good record answers with what was seen; otherwise the file system does. */
  ghost predicate Answered(s: State, t: State, seen: map<int, Sight>, seen': map<int, Sight>, name: string, of: Request,
                           probe: Probe, now: int, a: Answer) {
    && CountsUses(s, t, name)
    && if Good(s, seen, name, of, now) then FromRecord(s, t, seen, seen', name, a)
       else FromSystem(s, t, name, of, probe, a) && SeenNow(t, seen', name, of, probe, now, a)
  }

  /** What the code gets when it looks: for a record that holds something, with its descriptor and its number. */
  ghost function Showed(s: State, name: string, of: Request, probe: Probe): Found {
    if name in s.tree && s.tree[name] in s.files && Known(s.files[s.tree[name]]) then
      Stat(s.files[s.tree[name]].fd, s.files[s.tree[name]].uniq, probe)
    else Stat(INVALID, of.uniq, probe)
  }

  ghost predicate Looks(s: State, name: string, of: Request, now: int) {
    !(name in s.tree && s.tree[name] in s.files && Trusted(s.files[s.tree[name]], of, now))
  }

  lemma GoodIff(s: State, seen: map<int, Sight>, name: string, of: Request, now: int)
    requires s.Valid() && Recalls(s, seen)
    ensures Looks(s, name, of, now) <==> !Good(s, seen, name, of, now)
  {
    if name in s.tree {
      assert RecallsAt(s, seen, name);
      assert s.FileOk(s.tree[name]);
    }
  }

  ghost function SeenAfter(t: State, seen: map<int, Sight>, name: string, of: Request, now: int, looked: bool,
                           found: Found): map<int, Sight> {
    if looked && name in t.tree then seen[t.tree[name] := Sight(now, of.symlinks, found)] else seen
  }

  lemma RecordAnswers(s: State, t: State, seen: map<int, Sight>, name: string, of: Request, probe: Probe, now: int,
                      address: int, memory: File, max: int, a: Answer)
    requires s.Valid() && Recalls(s, seen) && Opened(s, t, name, of, probe, now, address, memory, max, a)
    requires !Looks(s, name, of, now) && address !in s.files
    ensures name in t.tree && RecallsAt(t, seen, name) && FromRecord(s, t, seen, seen, name, a)
    ensures CountsUses(s, t, name)
  {
    assert RecallsAt(s, seen, name);
    assert s.FileOk(s.tree[name]);
    hide State.Sound;
    hide Kept;
    hide Others;
    hide Aside;
    hide Recalls;
    hide Recorded;
    hide Stays;
  }

  lemma SystemAnswers(s: State, t: State, seen: map<int, Sight>, name: string, of: Request, probe: Probe, now: int,
                      address: int, memory: File, max: int, a: Answer)
    requires s.Valid() && Opened(s, t, name, of, probe, now, address, memory, max, a)
    requires Looks(s, name, of, now) && address !in s.files
    ensures var seen' := SeenAfter(t, seen, name, of, now, true, Showed(s, name, of, probe));
            && FromSystem(s, t, name, of, probe, a) && SeenNow(t, seen', name, of, probe, now, a)
  {
    hide State.Sound;
    hide Kept;
    hide Others;
    hide Aside;
    hide Noted;
  }

  lemma SystemNoted(s: State, t: State, seen: map<int, Sight>, name: string, of: Request, probe: Probe, now: int,
                    address: int, memory: File, max: int, a: Answer)
    requires s.Valid() && Opened(s, t, name, of, probe, now, address, memory, max, a)
    requires Looks(s, name, of, now) && address !in s.files && name in t.tree
    ensures var seen' := SeenAfter(t, seen, name, of, now, true, Showed(s, name, of, probe));
            RecallsAt(t, seen', name) && CountsUses(s, t, name)
  {
    hide State.Valid;
    hide Trusted;
    hide LentFile;
    hide State.Sound;
    hide Kept;
    hide Others;
    hide Aside;
    hide AtHead;
  }

  lemma OwnRecalled(s: State, t: State, seen: map<int, Sight>, name: string, of: Request, probe: Probe, now: int,
                    address: int, memory: File, max: int, a: Answer)
    requires s.Valid() && Recalls(s, seen) && Opened(s, t, name, of, probe, now, address, memory, max, a)
    requires address !in s.files
    ensures var seen' := SeenAfter(t, seen, name, of, now, Looks(s, name, of, now), Showed(s, name, of, probe));
            && (name in t.tree ==> RecallsAt(t, seen', name))
            && Answered(s, t, seen, seen', name, of, probe, now, a)
  {
    hide State.Sound;
    hide Recalls;
    hide Opened;
    hide RecallsAt;
    hide FromRecord;
    hide FromSystem;
    hide SeenNow;
    hide Good;
    hide Looks;
    hide Showed;
    hide CountsUses;
    GoodIff(s, seen, name, of, now);
    if Looks(s, name, of, now) {
      SystemAnswers(s, t, seen, name, of, probe, now, address, memory, max, a);
      if name in t.tree {
        SystemNoted(s, t, seen, name, of, probe, now, address, memory, max, a);
      } else {
        NoUses(s, t, name);
      }
    } else {
      RecordAnswers(s, t, seen, name, of, probe, now, address, memory, max, a);
    }
  }

  lemma NoUses(s: State, t: State, name: string)
    requires name !in t.tree
    ensures CountsUses(s, t, name)
  {
  }

  lemma OtherRecalled(s: State, t: State, seen: map<int, Sight>, name: string, address: int, max: int, l: Sight,
                      n: string)
    requires s.Valid() && t.Valid() && Recalls(s, seen) && Others(s.tree, t.tree, name, max) && address !in s.files
    requires Aside(s, t, Touched(s, name, address)) && n in t.tree && n != name
    ensures RecallsAt(t, seen, n) && (name in t.tree ==> RecallsAt(t, seen[t.tree[name] := l], n))
  {
    assert RecallsAt(s, seen, n) && s.NameOk(n) && t.NameOk(n);
    if name in s.tree {
      assert s.NameOk(name);
    }
    if name in t.tree {
      assert t.NameOk(name);
    }
  }

  /** The records of the index hold what was seen, and a call answers accordingly. */
  lemma Recalled(s: State, t: State, seen: map<int, Sight>, name: string, of: Request, probe: Probe, now: int,
                 address: int, memory: File, max: int, a: Answer)
    requires s.Valid() && Recalls(s, seen) && Opened(s, t, name, of, probe, now, address, memory, max, a)
    requires address !in s.files
    ensures var seen' := SeenAfter(t, seen, name, of, now, Looks(s, name, of, now), Showed(s, name, of, probe));
            Recalls(t, seen') && Answered(s, t, seen, seen', name, of, probe, now, a)
  {
    OwnRecalled(s, t, seen, name, of, probe, now, address, memory, max, a);
    var seen' := SeenAfter(t, seen, name, of, now, Looks(s, name, of, now), Showed(s, name, of, probe));
    hide State.Sound;
    hide Answered;
    hide RecallsAt;
    hide Others;
    hide Aside;
    forall n | n in t.tree ensures RecallsAt(t, seen', n) {
      if n != name {
        OtherRecalled(s, t, seen, name, address, max, Sight(now, of.symlinks, Showed(s, name, of, probe)), n);
      }
    }
  }

  /** A record that is given back, and records that go, do not change what the others hold. */
  lemma BackRecalled(s: State, mid: State, t: State, seen: map<int, Sight>, f: int, minUses: nat, now: int)
    requires s.Valid() && mid.Valid() && t.Valid() && Recalls(s, seen) && Cache.GivenBack(s, mid, f, minUses, now)
    requires Lost(mid, t)
    ensures Recalls(t, seen)
  {
    hide State.Sound;
    forall n | n in t.tree ensures RecallsAt(t, seen, n) {
      BackAt(s, mid, t, seen, f, minUses, now, n);
    }
  }

  lemma BackAt(s: State, mid: State, t: State, seen: map<int, Sight>, f: int, minUses: nat, now: int, n: string)
    requires s.Valid() && mid.Valid() && t.Valid() && Recalls(s, seen) && Cache.GivenBack(s, mid, f, minUses, now)
    requires Lost(mid, t) && n in t.tree
    ensures RecallsAt(t, seen, n)
  {
    assert RecallsAt(s, seen, n) && s.NameOk(n) && mid.NameOk(n) && t.NameOk(n);
    assert SameUse(mid.files[mid.tree[n]], t.files[t.tree[n]]);
    if mid.tree[n] != f {
      assert SameUse(s.files[s.tree[n]], mid.files[mid.tree[n]]);
    }
  }

  /** Other names stay as they are; only a new name in a full index drives some out. */
  predicate Others(before: map<string, int>, after: map<string, int>, name: string, max: int) {
    && (forall n :: n in after && n != name ==> n in before && after[n] == before[n])
    && (name in before || |before| < max ==> forall n :: n in before && n != name ==> n in after)
  }

  class Cache {
    var files: map<int, File>
    var tree: map<string, int>
    var queue: seq<int>
    var current: int
    const max: int
    const inactive: int
    ghost var owner: map<int, int>
    ghost var cleanups: multiset<int>
    ghost var clock: int

    /** What the last look for each record showed, how often the file system was looked at, and what it showed last. */
    ghost var seen: map<int, Sight>
    ghost var looks: nat
    ghost var last: Found

    ghost function S(): State
      reads this
    {
      State(files, tree, queue, owner, cleanups, clock)
    }

    ghost predicate Valid()
      reads this
    {
      S().Valid() && current == |tree| <= max && 1 <= max
    }

    /** ngx_open_file_cache_init */
    constructor (max: int, inactive: int, ghost now: int)
      requires 1 <= max
      ensures Valid() && this.max == max && this.inactive == inactive && files == map[] && clock == now
      ensures Recalls(S(), seen)
    {
      seen, looks, last := map[], 0, Found(INVALID, 0, 0, true);
      this.max, this.inactive := max, inactive;
      files, tree, queue, current := map[], map[], [], 0;
      owner, cleanups, clock := map[], multiset{}, now;
    }

    /** ngx_open_and_stat_file: the file system is looked at. */
    method OpenAndStat(fd: int, uniq: int, probe: Probe) returns (found: Found)
      modifies this`looks, this`last
      ensures found == last == Stat(fd, uniq, probe) && looks == old(looks) + 1
    {
      found := Stat(fd, uniq, probe);
      looks, last := looks + 1, found;
    }

    /** ngx_close_file: nobody uses the descriptor. */
    method CloseFd(f: int)
      requires f in files && files[f].fd in owner && owner[files[f].fd] == f && files[f].count == 0
      modifies this`files, this`owner
      ensures S() == old(S()).Shut(f)
    {
      owner := owner - {files[f].fd};
      files := files[f := files[f].(fd := INVALID)];
    }

    /** ngx_free(file) */
    method Free(f: int, ghost before: map<int, File>)
      requires f in files && before - {f} == files - {f}
      modifies this`files
      ensures files == before - {f}
    {
      files := files - {f};
    }

    /** A record leaves the index: it is freed if it has no users, and else marked to be closed. */
    method Drop(f: int)
      requires S().Sound(f) && f != NOBODY
      modifies this`files, this`tree, this`owner, this`current
      ensures S() == old(S()).Dropped(f) && current == old(current) - 1
    {
      assert S().FileOk(f);
      S().NoInvalid(f);
      ghost var before := files;
      tree := tree - {files[f].name};
      current := current - 1;
      if files[f].count == 0 {
        if files[f].fd != INVALID {
          CloseFd(f);
        }
        Free(f, before);
      } else {
        files := files[f := files[f].(close := true)];
      }
    }

    /** The same for a record that expired. */
    method DropExpired(f: int)
      requires S().Sound(f) && f != NOBODY
      modifies this`files, this`tree, this`owner, this`current
      ensures S() == old(S()).Dropped(f) && current == old(current) - 1
    {
      assert S().FileOk(f);
      S().NoInvalid(f);
      ghost var before := files;
      tree := tree - {files[f].name};
      current := current - 1;
      if files[f].err == 0 && !files[f].isDir {
        files := files[f := files[f].(close := true)];
        if files[f].count == 0 {
          if files[f].fd != INVALID {
            CloseFd(f);
          }
          Free(f, before);
        }
      } else {
        Free(f, before);
      }
    }

    /** The k least recently used records have gone, all inactive but for the first when it is forced. */
    ghost predicate Expired(before: State, after: State, k: nat, forced: bool, now: int) {
      && k <= |before.queue| && after.queue == before.queue[..|before.queue| - k] && k <= 3
      && Lost(before, after)
      && forall i {:trigger before.queue[i]} :: |before.queue| - k <= i < |before.queue| - (if forced then 1 else 0) ==>
           before.queue[i] in before.files && now - before.files[before.queue[i]].accessed > inactive
    }

    static lemma DroppedLost(s: State, i: nat, f: int)
      requires s.Valid() && i < |s.queue| && f == s.queue[i]
      ensures f in s.files && Lost(s, s.Taken(i).Dropped(f))
    {
      assert s.QueuedOk(i, NOBODY);
    }

    /** ngx_expire_old_cached_files: with n == 0 the least recently used record goes by force. */
    method ExpireOld(n: nat, now: int) returns (ghost k: nat)
      requires Valid() && n <= 1
      modifies this
      ensures (seen, looks, last) == old((seen, looks, last))
      ensures Valid() && Expired(old(S()), S(), k, n == 0, now) && current == old(current) - k
      ensures k <= 3 - n && (n == 0 && old(queue) != [] ==> k > 0)
      ensures k == 3 - n || queue == [] ||
              (queue[|queue| - 1] in files && now - files[queue[|queue| - 1]].accessed <= inactive)
    {
      hide State.Sound;
      hide Lost;
      k := 0;
      var m := n;
      ghost var s0 := S();
      NothingLost(s0);
      while m < 3
        invariant n <= m <= 3 && Valid() && k == m - n && current == old(current) - k
        invariant Expired(s0, S(), k, n == 0, now) && (k == 0 ==> S() == s0)
        invariant (seen, looks, last) == old((seen, looks, last))
        decreases 3 - m
      {
        if queue == [] {
          return;
        }
        var f := queue[|queue| - 1];
        DroppedLost(S(), |queue| - 1, f);
        m := m + 1;
        if m != 1 && now - files[f].accessed <= inactive {
          return;
        }
        ghost var s := S();
        ExpireLast();
        ExpireMore(s0, s, S(), k, n == 0, now);
        k := k + 1;
      }
    }

    static lemma NothingLost(s: State)
      ensures Lost(s, s)
    {
    }

    method ExpireLast()
      requires Valid() && queue != []
      modifies this
      ensures (seen, looks, last) == old((seen, looks, last))
      ensures Valid() && Lost(old(S()), S()) && queue == old(queue)[..|old(queue)| - 1] && current == old(current) - 1
    {
      hide State.Sound;
      hide Lost;
      hide State.Dropped;
      ghost var s := S();
      var i := |queue| - 1;
      var f := queue[i];
      DroppedLost(s, i, f);
      QueuedFile(s, i);
      s.TakenSound(i);
      s.Taken(i).DroppedSound(f);
      queue := queue[..i];
      assert S() == s.Taken(i);
      DropExpired(f);
    }

    static lemma QueuedFile(s: State, i: nat)
      requires s.Valid() && i < |s.queue|
      ensures s.queue[i] in s.files && s.queue[i] != NOBODY
    {
      assert s.QueuedOk(i, NOBODY) && s.FileOk(s.queue[i]);
    }

    lemma ExpireMore(s0: State, s: State, after: State, k: nat, forced: bool, now: int)
      requires Expired(s0, s, k, forced, now) && k < 3 && s.queue != [] && after.queue == s.queue[..|s.queue| - 1]
      requires Lost(s, after) && s.queue[|s.queue| - 1] in s.files
      requires (forced && k == 0) || now - s.files[s.queue[|s.queue| - 1]].accessed > inactive
      ensures Expired(s0, after, k + 1, forced, now)
    {
      LostKept(s0, s, after);
      assert s.queue[|s.queue| - 1] == s0.queue[|s0.queue| - k - 1];
      assert after.queue == s0.queue[..|s0.queue| - (k + 1)];
    }

    /** ngx_queue_remove */
    method Unqueue(f: int) returns (ghost i: nat)
      requires Valid() && f in files && S().Listed(f)
      modifies this`queue
      ensures i < |old(queue)| && old(queue)[i] == f && f != NOBODY && S() == old(S()).Taken(i) && S().Sound(f)
      ensures queue == Without(old(queue), f)
    {
      i := Position(S(), f);
      S().TakenSound(i);
      queue := Without(queue, f);
    }

    /** ngx_open_file_cleanup: a user of a record is done with it. */
    method Cleanup(f: int, minUses: nat, now: int) returns (ghost mid: State, ghost k: nat)
      requires Valid() && cleanups[f] > 0 && now >= clock
      modifies this
      ensures seen == old(seen) && looks == old(looks) && (Recalls(old(S()), seen) ==> Recalls(S(), seen))
      ensures Valid() && cleanups == old(cleanups) - multiset{f} && Kept(old(S()), S()) && clock == now
      ensures GivenBack(old(S()), mid, f, minUses, now) && Expired(mid, S(), k, false, now) && k <= 2
      ensures k == 2 || queue == []
          || (queue[|queue| - 1] in files && now - files[queue[|queue| - 1]].accessed <= inactive)
    {
      hide State.Sound;
      ghost var s := S();
      CloseCached(f, minUses, now);
      mid := S();
      k := ExpireOld(1, now);
      KeptLost(s, mid, S());
      if Recalls(s, seen) {
        BackRecalled(s, mid, S(), seen, f, minUses, now);
      }
    }

    static lemma KeptLost(s: State, mid: State, after: State)
      requires Kept(s, mid) && Lost(mid, after)
      ensures Kept(s, after)
    {
    }

    /** One user of a record is done: a record in the index is the latest used now, and its descriptor is closed if it
        has no users and was used too little; one that left the index is freed with its last user. */
    static ghost predicate GivenBack(s: State, t: State, f: int, minUses: nat, now: int) {
      && t.tree == s.tree && f in s.files && Aside(s, t, {f})
      && var g := s.files[f];
         if g.close then
           if g.count == 1 then f !in t.files && g.fd !in t.owner
           else f in t.files && t.files[f] == g.(count := g.count - 1) && t.queue == s.queue
         else
           && f in t.files && t.queue != [] && t.queue[0] == f && t.queue[1..] == Without(s.queue, f)
           && t.files[f] == g.(count := g.count - 1, accessed := now,
                                fd := if g.uses < minUses && g.count == 1 then INVALID else g.fd)
    }

    /** file->count--, then ngx_close_cached_file: the record goes to the head of the queue, its descriptor is closed
        if it was used too little, and a record that left the index is freed by its last user. */
    method CloseCached(f: int, minUses: nat, now: int)
      requires Valid() && cleanups[f] > 0 && now >= clock
      modifies this
      ensures (seen, looks, last) == old((seen, looks, last))
      ensures Valid() && cleanups == old(cleanups) - multiset{f} && Kept(old(S()), S()) && clock == now
      ensures GivenBack(old(S()), S(), f, minUses, now)
    {
      hide State.Sound;
      hide State.Listed;
      hide State.Gone;
      ghost var s0 := S();
      s0.LaterSound(NOBODY, now);
      clock := now;
      ghost var s := S();
      UserOf(s, f);
      if !files[f].close {
        s.ReleasedSound(f);
        Release(f);
        StillListed(s, f);
        Requeue(f, minUses, now);
      } else if files[f].count == 1 {
        s.GoneSound(f);
        CloseLast(f);
        GoneKept(s, f);
      } else {
        s.ReleasedSound(f);
        Release(f);
      }
    }

    static lemma StillListed(s: State, f: int)
      requires f in s.files && s.Listed(f)
      ensures s.Released(f).Listed(f)
    {
    }

    static lemma GoneKept(s: State, f: int)
      requires f in s.files
      ensures f !in s.Gone(f).files && s.files[f].fd !in s.Gone(f).owner
      ensures Kept(s, s.Gone(f)) && Aside(s, s.Gone(f), {f})
      ensures s.Gone(f).tree == s.tree && s.Gone(f).cleanups == s.cleanups - multiset{f}
      ensures s.Gone(f).clock == s.clock
    {
    }

    /** file->count--, by the cleanup that is run */
    method Release(f: int)
      requires f in files
      modifies this`files, this`cleanups
      ensures S() == old(S()).Released(f)
    {
      files := files[f := files[f].(count := files[f].count - 1)];
      cleanups := cleanups - multiset{f};
    }

    /** A record with a cleanup to come is allocated and has an open descriptor; it is in the index unless it is to
        be closed. */
    static lemma UserOf(s: State, f: int)
      requires s.Valid() && s.cleanups[f] > 0
      ensures f in s.files && s.files[f].count == s.cleanups[f] && s.files[f].fd in s.owner
      ensures s.owner[s.files[f].fd] == f
      ensures s.files[f].close <==> !s.Listed(f)
      ensures s.files[f].fd != INVALID
    {
      assert f in s.cleanups;
      assert s.FileOk(f);
      assert s.OwnerOk(s.files[f].fd);
    }

    method CloseLast(f: int)
      requires f in files && files[f].fd in owner && owner[files[f].fd] == f
      modifies this`files, this`owner, this`cleanups
      ensures S() == old(S()).Gone(f)
    {
      ghost var before := files;
      cleanups := cleanups - multiset{f};
      files := files[f := files[f].(count := files[f].count - 1)];
      owner := owner - {files[f].fd};
      files := files[f := files[f].(fd := INVALID)];
      Free(f, before);
    }

    method Requeue(f: int, minUses: nat, now: int)
      requires Valid() && f in files && S().Listed(f) && now == clock
      modifies this`files, this`queue, this`owner
      ensures Valid() && Steady(old(S()), S()) && tree == old(tree) && clock == now
      ensures f in files && queue == [f] + Without(old(queue), f) && Aside(old(S()), S(), {f})
      ensures files[f] ==
                old(files[f]).(
                  accessed := now,
                  fd := if old(files[f].uses) < minUses && old(files[f].count) == 0 then INVALID else old(files[f].fd))
    {
      hide State.Sound;
      hide State.Valid;
      hide Steady;
      hide Aside;
      ghost var s := S();
      ghost var i := Unqueue(f);
      ghost var s1 := S();
      FileIn(s1, f);
      StaysOpen(s, s1, f, i, now);
      files := files[f := files[f].(accessed := now)];
      queue := [f] + queue;
      if files[f].uses >= minUses || files[f].count != 0 {
        return;
      }
      IsShut(s, s1, f, i, now);
      s1.NoInvalid(f);
      if files[f].fd != INVALID {
        CloseFd(f);
      }
      assert S() == s1.Pushed(f, now).Shut(f);
    }

    static lemma StaysOpen(s: State, s1: State, f: int, i: nat, now: int)
      requires i < |s.queue| && s1 == s.Taken(i) && s1.Sound(f) && f != NOBODY && now == s.clock
      ensures f in s.files
      ensures var t := s1.Pushed(f, now); t.Valid() && Steady(s, t) && Aside(s, t, {f})
    {
      FileIn(s1, f);
      s1.PushedSound(f, now);
      hide State.Sound;
      hide State.Valid;
    }

    static lemma IsShut(s: State, s1: State, f: int, i: nat, now: int)
      requires i < |s.queue| && s1 == s.Taken(i) && s1.Sound(f) && f != NOBODY && now == s.clock
      requires f in s1.files && s1.files[f].count == 0
      ensures var t := s1.Pushed(f, now).Shut(f); t.Valid() && Steady(s, t) && Aside(s, t, {f})
    {
      FileIn(s1, f);
      s1.ShutSound(f);
      hide State.Sound;
      s1.Shut(f).PushedSound(f, now);
      hide State.Valid;
      ShutPushed(s1, f, now);
      var t := s1.Pushed(f, now).Shut(f);
      assert forall g {:trigger t.files[g]} :: g in t.files && g != f ==> t.files[g] == s1.files[g];
      hide State.Shut;
      hide State.Pushed;
    }

    static lemma ShutPushed(s: State, f: int, now: int)
      requires f in s.files
      ensures var t := s.Pushed(f, now).Shut(f);
        && s.Shut(f).Pushed(f, now) == t && t.cleanups == s.cleanups && f in t.files
        && t.files[f].count == s.files[f].count
    {
    }

    /* ---- ngx_open_cached_file ---- */

    /** failed: */
    method Fail(f: int)
      requires S().Sound(f) && f != NOBODY && current == |tree| <= max && 1 <= max
      modifies this`files, this`tree, this`owner, this`current
      ensures Valid() && Kept(old(S()), S()) && cleanups == old(cleanups) && tree == old(tree) - {old(files[f].name)}
      ensures Aside(old(S()), S(), {f})
    {
      hide State.Sound;
      S().DroppedSound(f);
      FileIn(S(), f);
      Drop(f);
    }

    static lemma FileIn(s: State, f: int)
      requires s.Sound(f) && f != NOBODY
      ensures f in s.files && s.Listed(f) && s.FileOk(f)
    {
    }

    /** found: */
    method Finish(f: int, now: int) returns (a: Answer)
      requires S().Sound(f) && f != NOBODY && current == |tree| <= max && 1 <= max && now == clock
      modifies this`files, this`queue
      ensures Valid() && Steady(old(S()), S()) && queue == [f] + old(queue)
      ensures f in files && files[f] == old(files[f]).(accessed := now) && a == AnswerOf(old(files[f]), f)
      ensures Aside(old(S()), S(), {f})
    {
      hide State.Sound;
      FileIn(S(), f);
      S().PushedSound(f, now);
      files := files[f := files[f].(accessed := now)];
      queue := [f] + queue;
      a := AnswerOf(files[f], f);
    }

    /** update: and found: */
    method Update(f: int, found: Found, symlinks: int, now: int) returns (a: Answer)
      requires S().Sound(f) && f != NOBODY && current == |tree| <= max && 1 <= max && now == clock
      requires found.Fit() && (files[f].fd == INVALID || files[f].fd == found.fd)
      requires (found.fd in owner ==> owner[found.fd] == f)
      modifies this
      ensures (seen, looks, last) == old((seen, looks, last))
      ensures Valid() && Kept(old(S()), S()) && tree == old(tree) && clock == now
      ensures Given(a, f, found) && AtHead(S(), old(files[f].name), a) && queue == [f] + old(queue)
      ensures f in files && files[f] == Filled(old(files[f]), found, symlinks, now).(accessed := now)
      ensures Aside(old(S()), S(), {f})
      ensures cleanups == if a.Open? then old(cleanups) + multiset{f} else old(cleanups)
    {
      hide State.Listed;
      hide State.Sound;
      hide Aside;
      hide Kept;
      hide Steady;
      ghost var s := S();
      FileIn(s, f);
      s.PutSound(f, found, symlinks, now);
      PutFile(f, found, symlinks, now);
      ghost var s1 := S();
      hide State.Put;
      a := Finish(f, now);
      PutKept(s, s1, S(), f, found, symlinks, now);
      PutAside(s, s1, S(), f, found, symlinks, now);
    }

    /** The fields of a record are set from what was found, and its cleanup is registered. */
    method PutFile(f: int, found: Found, symlinks: int, now: int)
      requires f in files
      modifies this`files, this`owner, this`cleanups
      ensures S() == old(S()).Put(f, found, symlinks, now)
      ensures files[f] == Filled(old(files[f]), found, symlinks, now)
      ensures cleanups == if found.Regular() then old(cleanups) + multiset{f} else old(cleanups)
    {
      hide Filled;
      owner := S().WithOwner(found.fd, f);
      cleanups := if found.Regular() then cleanups + multiset{f} else cleanups;
      files := files[f := Filled(files[f], found, symlinks, now)];
    }

    static lemma PutKept(s: State, s1: State, t: State, f: int, found: Found, symlinks: int, now: int)
      requires s.Sound(f) && f != NOBODY && f in s.files && s1 == s.Put(f, found, symlinks, now)
      requires found.Fit() && (s.files[f].fd == INVALID || s.files[f].fd == found.fd)
      requires Steady(s1, t) && f in t.files && t.files[f] == s1.files[f].(accessed := now)
      ensures Kept(s, t) && t.cleanups == s1.cleanups
    {
      FileIn(s, f);
      hide State.Sound;
    }

    static lemma PutAside(s: State, s1: State, t: State, f: int, found: Found, symlinks: int, now: int)
      requires f in s.files && s1 == s.Put(f, found, symlinks, now) && Aside(s1, t, {f})
      ensures Aside(s, t, {f})
    {
      hide State.Sound;
      assert Aside(s, s1, {f});
      AsideMore(s, s1, t, {f}, {f});
    }

    /** The answer is what was found. */
    static predicate Given(a: Answer, f: int, found: Found) {
      a == if found.err != 0 then Error(found.err) else if found.isDir then Dir else Open(found.fd, f)
    }

    /** When the cache is full, the least recently used record goes, in use or not. */
    method MakeRoom(now: int)
      requires Valid()
      modifies this
      ensures (seen, looks, last) == old((seen, looks, last))
      ensures Valid() && current < max && Lost(old(S()), S())
      ensures old(current) < max ==> S() == old(S())
      ensures old(current) >= max ==> exists k: nat :: k > 0 && Expired(old(S()), S(), k, true, now)
    {
      hide State.Sound;
      hide Lost;
      ghost var s := S();
      if current >= max {
        SomeQueued(s);
        ghost var k := ExpireOld(0, now);
      } else {
        NothingLost(s);
      }
    }

    /** A new record goes into the index. */
    method Add(f: int, memory: File, name: string, found: Found, symlinks: int, now: int)
      requires Valid() && current < max && f !in files && f != NOBODY && name !in tree && found.Fit()
      requires found.fd !in owner
      modifies this`files, this`tree, this`owner, this`cleanups, this`current
      ensures S() == old(S()).Created(f, NewFile(memory, name), found, symlinks, now)
      ensures S().Sound(f) && current == |tree| <= max
    {
      hide State.Sound;
      ghost var s := S();
      var file := NewFile(memory, name);
      s.CreatedSound(f, file, found, symlinks, now);
      tree := tree[name := f];
      current := current + 1;
      owner := s.WithOwner(found.fd, f);
      cleanups := if found.Regular() then cleanups + multiset{f} else cleanups;
      files := files[f := Filled(file, found, symlinks, now)];
    }

    /** create: and what follows */
    method Create(f: int, memory: File, name: string, found: Found, symlinks: int, now: int) returns (a: Answer)
      requires Valid() && now == clock && f !in files && f != NOBODY && name !in tree && found.Fit()
      requires found.fd !in owner
      modifies this
      ensures (seen, looks, last) == old((seen, looks, last))
      ensures Valid() && Kept(old(S()), S()) && clock == now
      ensures Given(a, f, found) && AtHead(S(), name, a) && Others(old(tree), tree, name, max)
      ensures tree[name] == f && f in files && Aside(old(S()), S(), {f})
      ensures files[f] == Filled(NewFile(memory, name), found, symlinks, now).(accessed := now)
      ensures cleanups == if a.Open? then old(cleanups) + multiset{f} else old(cleanups)
    {
      hide State.Sound;
      hide Expired;
      hide Aside;
      ghost var s := S();
      MakeRoom(now);
      ghost var s1 := S();
      RoomFacts(s, s1, f, name, found.fd);
      Add(f, memory, name, found, symlinks, now);
      ghost var s2 := S();
      CreatedKept(s, s1, s2, f);
      OthersStay(s, s1, s2, name, f);
      a := Finish(f, now);
      CreatedAside(s, s1, s2, S(), f);
      KeptSteady(s, s2, S());
    }

    lemma OthersStay(s: State, s1: State, s2: State, name: string, f: int)
      requires Lost(s, s1) && name !in s.tree && s2.tree == s1.tree[name := f] && (|s.tree| < max ==> s1 == s)
      ensures Others(s.tree, s2.tree, name, max)
    {
    }

    static lemma RoomFacts(s: State, s1: State, f: int, name: string, fd: int)
      requires Lost(s, s1) && f !in s.files && name !in s.tree && fd !in s.owner
      ensures s1.cleanups == s.cleanups && s1.clock == s.clock && f !in s1.files && name !in s1.tree && fd !in s1.owner
    {
    }

    static lemma SomeQueued(s: State)
      requires s.Valid() && |s.tree| > 0
      ensures s.queue != []
    {
    }

    static lemma CreatedKept(s: State, s1: State, s2: State, f: int)
      requires Lost(s, s1) && f !in s.files && f in s2.files && s2.files == s1.files[f := s2.files[f]]
      ensures Kept(s, s2)
    {
    }

    static lemma CreatedAside(s: State, s1: State, s2: State, t: State, f: int)
      requires Lost(s, s1) && f in s2.files && s2.files == s1.files[f := s2.files[f]] && Aside(s2, t, {f})
      ensures Aside(s, t, {f})
    {
      forall g | g in t.files && g != f ensures g in s.files && SameUse(s.files[g], t.files[g]) {
        assert g in s2.files && g in s1.files;
      }
    }

    static lemma KeptSteady(s: State, s1: State, s2: State)
      requires Kept(s, s1) && Steady(s1, s2)
      ensures Kept(s, s2)
    {
    }

    /* a record is found */

    /** file->uses++ and ngx_queue_remove */
    method Take(f: int)
      requires Valid() && f in files && S().Listed(f)
      modifies this`files, this`queue
      ensures S().Sound(f) && f != NOBODY && files == old(files)[f := old(files[f]).(uses := old(files[f].uses) + 1)]
    {
      hide State.Sound;
      ghost var i := Unqueue(f);
      S().UsedSound(f);
      files := files[f := files[f].(uses := files[f].uses + 1)];
    }

    /** The record was not used often enough to keep its descriptor open. */
    method Revive(name: string, f: int, of: Request, probe: Probe, now: int) returns (a: Answer)
      requires S().Sound(f) && f in files && files[f].name == name && f != NOBODY && current == |tree| <= max
      requires 1 <= max
      requires now == clock && !Known(files[f]) && (probe.Regular? ==> probe.fd != INVALID && probe.fd !in owner)
      modifies this
      ensures seen == old(seen) && looks == old(looks) + 1 && last == Stat(INVALID, of.uniq, probe)
      ensures Valid() && Kept(old(S()), S()) && clock == now
      ensures Bare(a) == Looked(INVALID, 0, probe, NOBODY)
      ensures if Refused(of, probe) then tree == old(tree) - {name} else
                && tree == old(tree) && AtHead(S(), name, a)
                && files[f] == Recorded(old(files[f]), INVALID, of.uniq, probe, of.symlinks, now)
      ensures Aside(old(S()), S(), {f})
      ensures cleanups == if a.Open? then old(cleanups) + multiset{a.file} else old(cleanups)
    {
      hide State.Sound;
      FileIn(S(), f);
      S().NoOwner(f);
      var found := OpenAndStat(INVALID, of.uniq, probe);
      if probe.Failed? && (found.err == 0 || !of.errors) {
        Fail(f);
        return Error(found.err);
      }
      a := Update(f, found, of.symlinks, now);
    }

    /** The record is recent enough. */
    method Lend(name: string, f: int, now: int) returns (a: Answer)
      requires S().Sound(f) && f in files && files[f].name == name && f != NOBODY && current == |tree| <= max
      requires 1 <= max
      requires now == clock && Known(files[f])
      modifies this
      ensures (seen, looks, last) == old((seen, looks, last))
      ensures Valid() && Kept(old(S()), S()) && clock == now
      ensures Bare(a) == Bare(AnswerOf(old(files[f]), f)) && AtHead(S(), name, a) && tree == old(tree)
      ensures files[f] == LentFile(old(files[f]), now) && Aside(old(S()), S(), {f})
      ensures cleanups == if a.Open? then old(cleanups) + multiset{a.file} else old(cleanups)
    {
      hide State.Sound;
      FileIn(S(), f);
      if files[f].err == 0 && !files[f].isDir {
        S().LentSound(f);
        files := files[f := files[f].(count := files[f].count + 1)];
        cleanups := cleanups + multiset{f};
      }
      a := Finish(f, now);
    }

    /** The record is compared with the file system. */
    method Retest(name: string, f: int, of: Request, probe: Probe, now: int, address: int, memory: File)
      returns (a: Answer)
      requires S().Sound(f) && f in files && files[f].name == name && f != NOBODY && current == |tree| <= max
      requires 1 <= max
      requires now == clock && Known(files[f]) && address !in files && address != NOBODY
      requires probe.Regular? ==> probe.fd != INVALID && probe.fd !in owner
      modifies this
      ensures seen == old(seen) && looks == old(looks) + 1
      ensures last == Stat(old(files[f]).fd, old(files[f]).uniq, probe)
      ensures if Clashes(old(files[f]), probe) then MistakenAt(old(S()), S(), f, a)
              else Retested(old(S()), S(), name, f, of, probe, now, address, memory, max, a) && Valid()
    {
      hide State.Sound;
      hide Retested;
      hide Kept;
      hide Given;
      hide AtHead;
      hide Others;
      hide Filled;
      hide MistakenAt;
      ghost var s := S();
      FileIn(s, f);
      s.NoOwner(f);
      var found := OpenAndStat(files[f].fd, files[f].uniq, probe);
      if probe.Failed? && (found.err == 0 || !of.errors) {
        Fail(f);
        a := Error(found.err);
        RetestFailed(s, S(), name, f, of, probe, now, address, memory, max, a);
        return;
      }
      var odd := files[f].isDir || files[f].err != 0;
      if odd || (found.Regular() && found.uniq == files[f].uniq) {
        a := Update(f, found, of.symlinks, now);
        RetestUpdated(s, S(), name, f, of, probe, now, address, memory, max, a);
      } else if found.isDir && found.fd != INVALID {
        a := Mistake(name, f, found, of.symlinks, now, address, memory);
      } else {
        a := Changed(name, f, found, of.symlinks, now, address, memory);
        RetestChanged(s, S(), name, f, of, probe, now, address, memory, max, a);
      }
    }

    static lemma RetestFailed(s: State, t: State, name: string, f: int, of: Request, probe: Probe, now: int,
                              address: int,
                              memory: File, max: int, a: Answer)
      requires t.Valid() && Kept(s, t) && t.clock == s.clock == now && t.cleanups == s.cleanups
      requires t.tree == s.tree - {name} && Aside(s, t, {f})
      requires Refused(of, probe) && f in s.files && a == Error(probe.err)
      ensures Retested(s, t, name, f, of, probe, now, address, memory, max, a)
    {
    }

    static lemma RetestUpdated(s: State, t: State, name: string, f: int, of: Request, probe: Probe, now: int,
                               address: int,
                               memory: File, max: int, a: Answer)
      requires t.Valid() && Kept(s, t) && t.clock == now && t.tree == s.tree && !Refused(of, probe)
      requires f in s.files && s.files[f].name == name && s.Listed(f) && f in t.files && AtHead(t, name, a)
      requires Aside(s, t, {f})
      requires Stays(s.files[f], probe) && !Clashes(s.files[f], probe)
      requires var found := Stat(s.files[f].fd, s.files[f].uniq, probe);
        Given(a, f, found) && t.files[f] == Filled(s.files[f], found, of.symlinks, now).(accessed := now)
      requires t.cleanups == if a.Open? then s.cleanups + multiset{f} else s.cleanups
      ensures Retested(s, t, name, f, of, probe, now, address, memory, max, a)
    {
    }

    static lemma RetestChanged(s: State, t: State, name: string, f: int, of: Request, probe: Probe, now: int,
                               address: int,
                               memory: File, max: int, a: Answer)
      requires t.Valid() && Kept(s, t) && t.clock == now && Others(s.tree, t.tree, name, max) && !Refused(of, probe)
      requires f in s.files && AtHead(t, name, a) && !Clashes(s.files[f], probe) && Aside(s, t, {f, address})
      requires Stays(s.files[f], probe) <==> s.files[f].count == 0
      requires t.tree[name] == if s.files[f].count == 0 then f else address
      requires var found := Stat(s.files[f].fd, s.files[f].uniq, probe);
        && Given(a, t.tree[name], found)
        && t.files[t.tree[name]] ==
           Filled(if s.files[f].count == 0 then s.files[f] else NewFile(memory, name), found, of.symlinks, now)
             .(accessed := now)
      requires t.cleanups == if a.Open? then s.cleanups + multiset{a.file} else s.cleanups
      ensures Retested(s, t, name, f, of, probe, now, address, memory, max, a)
    {
    }

    static ghost predicate MistakenAt(s: State, t: State, f: int, a: Answer) {
      && f in s.files && s.files[f].name in t.tree && t.Stray(t.tree[s.files[f].name])
      && t.files[t.tree[s.files[f].name]].fd == s.files[f].fd && t.cleanups == s.cleanups && a == Dir
    }

    /** The same steps as in the other cases of a name that stands for something else now, for a directory that came
        with
        the descriptor of the record. */
    method Mistake(name: string, f: int, found: Found, symlinks: int, now: int, address: int, memory: File)
      returns (a: Answer)
      requires S().Sound(f) && f in files && files[f].name == name && f != NOBODY && current == |tree| <= max
      requires 1 <= max
      requires now == clock && address !in files && address != NOBODY
      requires files[f].fd != INVALID && found.fd == files[f].fd && found.err == 0 && found.isDir
      modifies this
      ensures (seen, looks, last) == old((seen, looks, last))
      ensures S() == old(S()).Mistaken(f, NewFile(memory, name), address, found, symlinks, now)
      ensures MistakenAt(old(S()), S(), f, a)
    {
      hide State.Sound;
      hide Lost;
      hide State.Stray;
      ghost var s := S();
      FileIn(s, f);
      s.MistakenStray(f, NewFile(memory, name), address, found, symlinks, now);
      var g := f;
      if files[f].count == 0 {
        CloseFd(f);
        files := files[f := Filled(files[f], found, symlinks, now)];
      } else {
        s.DroppedSound(f);
        Drop(f);
        MakeRoom(now);
        g := address;
        tree := tree[name := g];
        current := current + 1;
        files := files[g := Filled(NewFile(memory, name), found, symlinks, now)];
      }
      files := files[g := files[g].(accessed := now)];
      queue := [g] + queue;
      a := AnswerOf(files[g], g);
    }

    /** The name stands for another file now, or for none. */
    method Changed(name: string, f: int, found: Found, symlinks: int, now: int, address: int, memory: File)
      returns (a: Answer)
      requires S().Sound(f) && f in files && files[f].name == name && f != NOBODY && current == |tree| <= max
      requires 1 <= max
      requires now == clock && address !in files && address != NOBODY && found.Fit() && found.fd !in owner
      requires files[f].fd != INVALID
      modifies this
      ensures (seen, looks, last) == old((seen, looks, last))
      ensures Valid() && Kept(old(S()), S()) && clock == now
      ensures AtHead(S(), name, a) && Given(a, tree[name], found) && Others(old(tree), tree, name, max)
      ensures tree[name] == if old(files[f].count) == 0 then f else address
      ensures Aside(old(S()), S(), {f, address})
      ensures files[tree[name]] ==
                Filled(if old(files[f].count) == 0 then old(files[f]) else NewFile(memory, name), found, symlinks, now)
                  .(accessed := now)
      ensures cleanups == if a.Open? then old(cleanups) + multiset{a.file} else old(cleanups)
    {
      hide State.Sound;
      hide Kept;
      ghost var s := S();
      FileIn(s, f);
      if files[f].count == 0 {
        s.ShutSound(f);
        CloseFd(f);
        a := Update(f, found, symlinks, now);
        ShutKept(s, f, S());
        AsideMore(s, s.Shut(f), S(), {f}, {f});
      } else {
        s.DroppedSound(f);
        Drop(f);
        a := Create(address, memory, name, found, symlinks, now);
        DroppedKept(s, f, S());
        AsideMore(s, s.Dropped(f), S(), {f}, {address});
      }
    }

    static lemma ShutKept(s: State, f: int, after: State)
      requires f in s.files && s.files[f].count == 0 && Kept(s.Shut(f), after)
      ensures Kept(s, after)
    {
    }

    static lemma DroppedKept(s: State, f: int, after: State)
      requires f in s.files && s.files[f].count > 0 && Kept(s.Dropped(f), after)
      ensures Kept(s, after)
    {
    }

    method Reopen(name: string, of: Request, probe: Probe, now: int, address: int, memory: File) returns (a: Answer)
      requires Valid() && now == clock && address !in files && address != NOBODY && name in tree && tree[name] in files
      requires probe.Regular? ==> probe.fd != INVALID && probe.fd !in owner
      modifies this
      ensures seen == old(seen)
      ensures looks == old(looks) + if Looks(old(S()), name, of, now) then 1 else 0
      ensures Looks(old(S()), name, of, now) ==> last == Showed(old(S()), name, of, probe)
      ensures if Clash(old(S()), name, of, probe, now) then Astray(old(S()), S(), name) && a == Dir
              else Opened(old(S()), S(), name, of, probe, now, address, memory, max, a) && Valid()
    {
      hide State.Sound;
      hide Kept;
      hide AtHead;
      hide Recorded;
      hide LentFile;
      hide Retested;
      hide MistakenAt;
      hide Opened;
      hide Astray;
      hide Known;
      hide Trusted;
      hide Refused;
      hide Clash;
      hide Looks;
      hide Showed;
      hide Stat;
      hide Bare;
      hide Looked;
      hide AnswerOf;
      ghost var s := S();
      var f := tree[name];
      NameIn(s, name);
      Take(f);
      ghost var s1 := S();
      TakenLooks(s, s1, name, f, of, probe, now);
      if !Known(files[f]) {
        a := Revive(name, f, of, probe, now);
        OpenedRevived(s, s1, S(), name, f, of, probe, now, address, memory, max, a);
      } else if Trusted(files[f], of, now) {
        a := Lend(name, f, now);
        OpenedLent(s, s1, S(), name, f, of, probe, now, address, memory, max, a);
      } else {
        a := Retest(name, f, of, probe, now, address, memory);
        OpenedRetested(s, s1, S(), name, f, of, probe, now, address, memory, max, a);
      }
    }

    /** The record is off the queue, with one use more. */
    static ghost predicate TakenOut(s: State, s1: State, name: string, f: int) {
      && name in s.tree && s.tree[name] == f && f in s.files && s1.tree == s.tree && s1.cleanups == s.cleanups
      && s1.files == s.files[f := s.files[f].(uses := s.files[f].uses + 1)]
    }

    static lemma TakenLooks(s: State, s1: State, name: string, f: int, of: Request, probe: Probe, now: int)
      requires TakenOut(s, s1, name, f)
      ensures Looks(s, name, of, now) <==> !Trusted(s1.files[f], of, now)
      ensures Trusted(s1.files[f], of, now) ==> Known(s1.files[f])
      ensures Showed(s, name, of, probe) ==
                if Known(s1.files[f]) then Stat(s1.files[f].fd, s1.files[f].uniq, probe)
                else Stat(INVALID, of.uniq, probe)
    {
    }

    static lemma OpenedRevived(s: State, s1: State, t: State, name: string, f: int, of: Request, probe: Probe,
                               now: int, address: int,
                               memory: File, max: int, a: Answer)
      requires TakenOut(s, s1, name, f) && !Known(s1.files[f])
      requires t.Valid() && Kept(s1, t) && t.clock == now && Bare(a) == Looked(INVALID, 0, probe, NOBODY)
      requires if Refused(of, probe) then t.tree == s1.tree - {name} else
                 && t.tree == s1.tree && AtHead(t, name, a)
                 && t.files[f] == Recorded(s1.files[f], INVALID, of.uniq, probe, of.symlinks, now)
      requires Aside(s1, t, {f})
      requires t.cleanups == if a.Open? then s.cleanups + multiset{a.file} else s.cleanups
      ensures !Clash(s, name, of, probe, now) && Opened(s, t, name, of, probe, now, address, memory, max, a)
    {
      TakenKept(s, f, s1, t);
      TakenAside(s, f, s1, t, {f});
      FoundNoted(s, t, f, name, of, probe, now, address, memory, a);
      GivenOwned(s, t, name, of, probe, now, a);
    }

    static lemma OpenedLent(s: State, s1: State, t: State, name: string, f: int, of: Request, probe: Probe, now: int,
                            address: int,
                            memory: File, max: int, a: Answer)
      requires TakenOut(s, s1, name, f) && Known(s1.files[f]) && Trusted(s1.files[f], of, now)
      requires t.Valid() && Kept(s1, t) && t.clock == now && Bare(a) == Bare(AnswerOf(s1.files[f], f))
      requires t.tree == s1.tree && AtHead(t, name, a) && t.files[f] == LentFile(s1.files[f], now)
      requires Aside(s1, t, {f})
      requires t.cleanups == if a.Open? then s.cleanups + multiset{a.file} else s.cleanups
      ensures !Clash(s, name, of, probe, now) && Opened(s, t, name, of, probe, now, address, memory, max, a)
    {
      TakenKept(s, f, s1, t);
      TakenAside(s, f, s1, t, {f});
      FoundNoted(s, t, f, name, of, probe, now, address, memory, a);
      GivenOwned(s, t, name, of, probe, now, a);
    }

    static lemma OpenedRetested(s: State, s1: State, t: State, name: string, f: int, of: Request, probe: Probe,
                                now: int, address: int,
                                memory: File, max: int, a: Answer)
      requires TakenOut(s, s1, name, f) && Known(s1.files[f]) && !Trusted(s1.files[f], of, now)
      requires s1.files[f].name == name
      requires if Clashes(s1.files[f], probe) then MistakenAt(s1, t, f, a)
               else Retested(s1, t, name, f, of, probe, now, address, memory, max, a)
      ensures Clash(s, name, of, probe, now) <==> Clashes(s1.files[f], probe)
      ensures if Clash(s, name, of, probe, now) then Astray(s, t, name) && a == Dir
              else Opened(s, t, name, of, probe, now, address, memory, max, a)
    {
      hide State.Sound;
      hide State.Stray;
      if !Clashes(s1.files[f], probe) {
        TakenKept(s, f, s1, t);
        TakenAside(s, f, s1, t, {f, address});
        FoundNoted(s, t, f, name, of, probe, now, address, memory, a);
        GivenOwned(s, t, name, of, probe, now, a);
      }
    }

    /** A descriptor that is given belongs to the record of the name. */
    static lemma GivenOwned(s: State, t: State, name: string, of: Request, probe: Probe, now: int, a: Answer)
      requires t.Valid() && (if Keeps(s, name, of, probe, now) then AtHead(t, name, a) else a.Error?)
      ensures a.Open? ==> a.fd in t.owner && t.owner[a.fd] == a.file
    {
      if a.Open? {
        assert t.FileOk(a.file);
      }
    }

    /** The three ways to treat a record that was found. */
    static lemma FoundNoted(s: State, t: State, f: int, name: string, of: Request, probe: Probe, now: int, address: int,
                            memory: File, a: Answer)
      requires name in s.tree && s.tree[name] == f && f in s.files
      requires Keeps(s, name, of, probe, now) ==> AtHead(t, name, a)
      requires
        var u := s.files[f].(uses := s.files[f].uses + 1);
        Bare(a) == if !Known(u) then Looked(INVALID, 0, probe, NOBODY)
                   else if Trusted(u, of, now) then Bare(AnswerOf(u, f)) else Looked(u.fd, u.uniq, probe, NOBODY)
      requires Keeps(s, name, of, probe, now) ==>
        var u := s.files[f].(uses := s.files[f].uses + 1);
        if !Known(u) then t.tree[name] == f && t.files[f] == Recorded(u, INVALID, of.uniq, probe, of.symlinks, now)
        else if Trusted(u, of, now) then t.tree[name] == f && t.files[f] == LentFile(u, now)
        else if Stays(u, probe) then
          t.tree[name] == f && t.files[f] == Recorded(u, u.fd, u.uniq, probe, of.symlinks, now)
        else
          && t.tree[name] == address
          && t.files[address] == Recorded(NewFile(memory, name), u.fd, u.uniq, probe, of.symlinks, now)
      ensures Keeps(s, name, of, probe, now) ==> Noted(s, t, name, of, probe, now, address, memory)
      ensures Bare(a) == Reply(s, name, of, probe, now)
    {
    }

    static lemma NameIn(s: State, name: string)
      requires s.Valid() && name in s.tree
      ensures s.tree[name] in s.files && s.files[s.tree[name]].name == name
    {
      assert s.NameOk(name);
    }

    static lemma TakenKept(s: State, f: int, s1: State, after: State)
      requires f in s.files && s1.files == s.files[f := s.files[f].(uses := s.files[f].uses + 1)] && Kept(s1, after)
      ensures Kept(s, after)
    {
    }

    static lemma TakenAside(s: State, f: int, s1: State, after: State, out: set<int>)
      requires f in s.files && s1.files == s.files[f := s.files[f].(uses := s.files[f].uses + 1)] && f in out
      requires Aside(s1, after, out)
      ensures Aside(s, after, out)
    {
    }

    /** ngx_open_cached_file. The descriptor, if there is one, stays open until the cleanup for its record is run;
        address is that of a record to be allocated, and memory what is there. The file system is looked at exactly
        if the record is not good any more. */
    method OpenCached(name: string, of: Request, probe: Probe, now: int, address: int, memory: File) returns (a: Answer)
      requires Valid() && now >= clock && address !in files && address != NOBODY
      requires probe.Regular? ==> probe.fd != INVALID && probe.fd !in owner
      modifies this
      ensures if Clash(old(S()), name, of, probe, now) then Astray(old(S()), S(), name) && a == Dir
              else Opened(old(S()), S(), name, of, probe, now, address, memory, max, a)
      ensures Valid() <==> !Clash(old(S()), name, of, probe, now)
      ensures Recalls(old(S()), old(seen)) ==>
        && looks == old(looks) + (if Good(old(S()), old(seen), name, of, now) then 0 else 1)
        && (Valid() ==> Recalls(S(), seen) && Answered(old(S()), S(), old(seen), seen, name, of, probe, now, a))
    {
      hide State.Sound;
      hide Opened;
      hide Astray;
      hide Clash;
      hide Recalls;
      hide Answered;
      hide Good;
      ghost var s, seen0 := S(), seen;
      a := Answer(name, of, probe, now, address, memory);
      hide Showed;
      hide Looks;
      if Looks(s, name, of, now) && name in tree {
        seen := seen[tree[name] := Sight(now, of.symlinks, last)];
      }
      if Recalls(s, seen0) {
        GoodIff(s, seen0, name, of, now);
        if !Clash(s, name, of, probe, now) {
          Recalled(s, S(), seen0, name, of, probe, now, address, memory, max, a);
        }
      }
    }

    method Answer(name: string, of: Request, probe: Probe, now: int, address: int, memory: File) returns (a: Answer)
      requires Valid() && now >= clock && address !in files && address != NOBODY
      requires probe.Regular? ==> probe.fd != INVALID && probe.fd !in owner
      modifies this
      ensures if Clash(old(S()), name, of, probe, now) then Astray(old(S()), S(), name) && a == Dir
              else Opened(old(S()), S(), name, of, probe, now, address, memory, max, a)
      ensures Valid() <==> !Clash(old(S()), name, of, probe, now)
      ensures seen == old(seen) && looks == old(looks) + if Looks(old(S()), name, of, now) then 1 else 0
      ensures Looks(old(S()), name, of, now) ==> last == Showed(old(S()), name, of, probe)
    {
      hide AtHead;
      hide State.Sound;
      hide Kept;
      hide Opened;
      hide Astray;
      hide Clash;
      hide Given;
      hide Looks;
      hide Showed;
      hide Aside;
      ghost var s := S();
      s.LaterSound(NOBODY, now);
      clock := now;
      ghost var s1 := S();
      LaterSame(s, s1, name, of, probe, now, address, memory, max);
      if name in tree {
        NameIn(s1, name);
        a := Reopen(name, of, probe, now, address, memory);
        AstrayInvalid(s, S(), name);
      } else {
        s1.NoInvalid(NOBODY);
        NewLooks(s1, name, of, probe, now);
        var found := OpenAndStat(INVALID, of.uniq, probe);
        if probe.Failed? && (found.err == 0 || !of.errors) {
          a := Error(found.err);
          OpenedNone(s1, name, of, probe, now, address, memory, max, a);
          return;
        }
        a := Create(address, memory, name, found, of.symlinks, now);
        OpenedNew(s1, S(), name, of, probe, now, address, memory, max, a);
      }
    }

    static lemma AstrayInvalid(s: State, t: State, name: string)
      ensures Astray(s, t, name) ==> !t.Valid()
    {
      hide State.Sound;
      if Astray(s, t, name) {
        t.StrayInvalid(t.tree[name]);
      }
    }

    /** Time that goes by changes nothing of what is promised. */
    static lemma LaterSame(s: State, s1: State, name: string, of: Request, probe: Probe, now: int, address: int,
                           memory: File, max: int)
      requires s1 == s.Later(s1.clock)
      ensures Clash(s1, name, of, probe, now) <==> Clash(s, name, of, probe, now)
      ensures Looks(s1, name, of, now) <==> Looks(s, name, of, now)
      ensures Showed(s1, name, of, probe) == Showed(s, name, of, probe)
      ensures forall t: State {:trigger Astray(s1, t, name)} :: Astray(s1, t, name) ==> Astray(s, t, name)
      ensures forall t: State, a: Answer {:trigger Opened(s1, t, name, of, probe, now, address, memory, max, a)} ::
                Opened(s1, t, name, of, probe, now, address, memory, max, a) ==>
                  Opened(s, t, name, of, probe, now, address, memory, max, a)
    {
      hide Refused;
      hide Looked;
      hide AtHead;
      hide Others;
      hide State.Sound;
      hide State.Stray;
    }

    static lemma NewLooks(s: State, name: string, of: Request, probe: Probe, now: int)
      requires name !in s.tree
      ensures Looks(s, name, of, now) && Showed(s, name, of, probe) == Stat(INVALID, of.uniq, probe)
    {
    }

    /** A name that is not found and cannot be kept. */
    static lemma OpenedNone(s: State, name: string, of: Request, probe: Probe, now: int, address: int, memory: File,
                            max: int, a: Answer)
      requires s.Valid() && s.clock == now && name !in s.tree && Refused(of, probe) && a == Error(probe.err)
      ensures !Clash(s, name, of, probe, now) && Opened(s, s, name, of, probe, now, address, memory, max, a)
    {
      hide State.Sound;
    }

    /** A name that is new. */
    static lemma OpenedNew(s: State, t: State, name: string, of: Request, probe: Probe, now: int, address: int,
                           memory: File, max: int, a: Answer)
      requires name !in s.tree && t.Valid() && Kept(s, t) && t.clock == now && !Refused(of, probe)
      requires AtHead(t, name, a) && t.tree[name] == address && Others(s.tree, t.tree, name, max)
      requires Aside(s, t, {address})
      requires Given(a, address, Stat(INVALID, of.uniq, probe))
      requires t.files[address] == Recorded(NewFile(memory, name), INVALID, of.uniq, probe, of.symlinks, now)
      requires t.cleanups == if a.Open? then s.cleanups + multiset{address} else s.cleanups
      ensures !Clash(s, name, of, probe, now) && Opened(s, t, name, of, probe, now, address, memory, max, a)
    {
      hide State.Sound;
      hide Kept;
      GivenOwned(s, t, name, of, probe, now, a);
    }
  }
}
