/**
 * The operator's dashboard (`src/pages/Dashboard.tsx`): the held list of all posts,
 * the title search over it, the published/draft tiles, and the authoring workflow
 * (the editor form, the two-phase submit with its image upload, publish toggling,
 * confirmed deletion and the dialog handlers).
 */
module Dashboard {
  import opened Wrappers
  import opened Seqs
  import opened Text
  import opened Store
  import opened Storage

  /** The signed-in operator: `user.id` and `user.user_metadata.full_name`. */
  datatype User = User(id: string, fullName: Option<string>)

  /** The editor's `formData`. */
  datatype Form = Form(
    title: string,
    description: string,
    content: string,
    image: Option<File>,
    published: bool,
    author: string)

  /** What one of the form's change handlers writes into `formData`. */
  datatype FieldChange =
    | TitleInput(title: string)
    | AuthorInput(author: string)
    | DescriptionInput(description: string)
    | ContentInput(content: string)
    | ImageInput(image: Option<File>)
    | PublishedSwitch(published: bool)

  /** How a submit ended. */
  datatype SubmitOutcome =
    | Blocked       // a required field is empty: the browser does not fire the submit
    | NoUser        // nobody is signed in: the handler returns at once
    | UploadFailed  // the pending image did not upload: nothing is written
    | SaveFailed    // the insert or update failed
    | Saved

  /** How a delete ended. */
  datatype DeleteOutcome = Cancelled | DeleteFailed | Deleted

  /** `user?.user_metadata?.full_name || ''` */
  function DefaultAuthor(user: Option<User>): string
  {
    if user.Some? && user.value.fullName.Some? then user.value.fullName.value else ""
  }

  /** The form as first shown and as every reset leaves it. */
  function DefaultForm(user: Option<User>): Form
  {
    Form("", "", "", None, true, DefaultAuthor(user))
  }

  /** The form the Edit button fills from a post: its texts and flag, and no pending image. */
  function SeededForm(p: Post): Form
  {
    Form(p.title, p.description, p.content, None, p.published, p.author)
  }

  /** `setFormData({ ...formData, <field>: value })` */
  function Changed(f: Form, c: FieldChange): Form
  {
    match c
    case TitleInput(title) => f.(title := title)
    case AuthorInput(author) => f.(author := author)
    case DescriptionInput(description) => f.(description := description)
    case ContentInput(content) => f.(content := content)
    case ImageInput(image) => f.(image := image)
    case PublishedSwitch(published) => f.(published := published)
  }

  /** The fields marked `required` in the form are all non-empty. */
  predicate RequiredFilled(f: Form)
  {
    f.title != "" && f.author != "" && f.description != "" && f.content != ""
  }

  /** `s || null` for a nullable string: the empty string is falsy, so it becomes null too. */
  function OrNull(s: Option<string>): Option<string>
  {
    if s.Some? && s.value != "" then s else None
  }

  /** `editingBlog?.image_url || null`: the image a submit keeps when no new one is picked. */
  function ExistingImage(editing: Option<Post>): Option<string>
  {
    OrNull(if editing.Some? then editing.value.imageUrl else None)
  }

  /** `${user?.id}`: the owner folder of an upload ("undefined" when nobody is signed in). */
  function UserIdText(user: Option<User>): string
  {
    if user.Some? then user.value.id else "undefined"
  }

  /** `file.name.split('.').pop()` */
  function FileExtension(name: string): string
  {
    LastSegment(name, '.')
  }

  /** `${Date.now()}.${fileExt}`: the stored file's name. */
  function StoredName(ms: nat, fileName: string): string
  {
    DecimalString(ms) + "." + FileExtension(fileName)
  }

  /** `${user?.id}/${fileName}`: where an upload is stored, in its owner's folder. */
  function StorageKey(owner: string, ms: nat, fileName: string): string
  {
    owner + "/" + StoredName(ms, fileName)
  }

  lemma DigitsHaveNoDot(s: string)
    requires AllDigits(s)
    ensures '.' !in s
  {
    forall i | 0 <= i < |s| ensures s[i] != '.' {
      assert IsDigit(s[i]);
    }
  }

  /**
   * Two uploads by the same owner get the same key exactly when they happen in the
   * same millisecond and their file names end in the same extension.
   */
  lemma StorageKeysCollide(owner: string, t1: nat, n1: string, t2: nat, n2: string)
    ensures StorageKey(owner, t1, n1) == StorageKey(owner, t2, n2) <==>
      t1 == t2 && FileExtension(n1) == FileExtension(n2)
  {
    var k1, k2 := StorageKey(owner, t1, n1), StorageKey(owner, t2, n2);
    if k1 == k2 {
      var pre := owner + "/";
      var s1, s2 := StoredName(t1, n1), StoredName(t2, n2);
      assert s1 == k1[|pre|..] && s2 == k2[|pre|..];
      var d1, d2 := DecimalString(t1), DecimalString(t2);
      DigitsHaveNoDot(d1);
      DigitsHaveNoDot(d2);
      SplitAtFirst(d1, FileExtension(n1), d2, FileExtension(n2), '.');
      DecimalStringInjective(t1, t2);
    }
  }

  /** The search box's test: the lower-cased title contains the lower-cased term. */
  predicate TitleMatches(term: string, p: Post)
  {
    Includes(ToLower(p.title), ToLower(term))
  }

  /** The search box's test as a filter callback. */
  function Matcher(term: string): Post -> bool
  {
    p => TitleMatches(term, p)
  }

  /**
   * The cards the grid shows: exactly the held posts whose lower-cased title contains
   * the lower-cased term, each as often as held, in the held order.
   */
  function SearchResults(blogs: seq<Post>, term: string): (r: seq<Post>)
    ensures IsSubsequence(r, blogs)
    ensures forall p :: p in r <==> p in blogs && TitleMatches(term, p)
    ensures forall p :: multiset(r)[p] == if TitleMatches(term, p) then multiset(blogs)[p] else 0
  {
    Filter(blogs, Matcher(term))
  }

  /** An empty search shows every held post. */
  lemma EmptySearchShowsAll(blogs: seq<Post>)
    ensures SearchResults(blogs, "") == blogs
  {
    forall p | p in blogs ensures Matcher("")(p) {
      IncludesEmpty(ToLower(p.title));
    }
    FilterKeepsAll(blogs, Matcher(""));
  }

  /** The "Published" tile. */
  function PublishedCount(blogs: seq<Post>): nat
  {
    |Filter(blogs, IsPublished)|
  }

  /** The "Drafts" tile. */
  function DraftCount(blogs: seq<Post>): nat
  {
    |Filter(blogs, IsDraft)|
  }

  /** The two tiles add up to the "Total Posts" tile. */
  lemma CountsAddUp(blogs: seq<Post>)
    ensures PublishedCount(blogs) + DraftCount(blogs) == |blogs|
  {
    FilterSplit(blogs, IsPublished, IsDraft);
  }

  /** The columns the edit path sends to `update`. */
  function EditPatchFrom(f: Form, imageUrl: Option<string>, now: int): Patch
  {
    Edit(f.title, f.description, f.content, imageUrl, f.author, f.published, now)
  }

  /** The row the create path sends to `insert`. */
  function InsertRowFrom(f: Form, imageUrl: Option<string>, authorId: string): NewRow
  {
    NewRow(f.title, f.description, f.content, imageUrl, authorId, f.author, f.published)
  }

  /**
   * The edit path rewrites the edited row from the form and stamps `updated_at`;
   * its id, author id and creation time stay, and every other id finds what it found before.
   */
  lemma EditOnlyChangesTarget(rows: seq<Post>, target: Post, f: Form, img: Option<string>, now: int, key: Id)
    requires UniqueIds(rows) && target in rows
    ensures var after := Find(UpdateWhere(rows, target.id, EditPatchFrom(f, img, now)), key);
      if key == target.id then
        after.Some? && after.value.id == target.id && after.value.authorId == target.authorId &&
        after.value.createdAt == target.createdAt && SeededForm(after.value) == f.(image := None) &&
        after.value.imageUrl == img && after.value.updatedAt == now
      else
        after == Find(rows, key)
  {
    FindUnique(rows, target);
    FindAfterUpdate(rows, target.id, EditPatchFrom(f, img, now), key);
  }

  /**
   * Toggling from a held list that is current flips the stored flag of that post and
   * stamps `updated_at`; every other id finds what it found before.
   */
  lemma ToggleFromFreshListFlips(rows: seq<Post>, p: Post, now: int, key: Id)
    requires UniqueIds(rows) && p in ListAll(rows)
    ensures Find(UpdateWhere(rows, p.id, SetPublished(!p.published, now)), key) ==
      if key == p.id then Some(p.(published := !p.published, updatedAt := now)) else Find(rows, key)
  {
    FindUnique(rows, p);
    FindAfterUpdate(rows, p.id, SetPublished(!p.published, now), key);
  }

  /** The dashboard's component state, over the shared table and bucket. */
  class DashboardState {
    const user: Option<User>
    const db: PostTable
    const bucket: Bucket
    var blogs: seq<Post>
    var loading: bool
    var isAddingBlog: bool
    var dialogOpen: bool
    var editingBlog: Option<Post>
    var searchTerm: string
    var formData: Form

    ghost predicate Valid()
      reads this, db
    {
      db.Valid()
    }

    constructor (user: Option<User>, db: PostTable, bucket: Bucket)
      requires db.Valid()
      ensures Valid()
      ensures this.user == user && this.db == db && this.bucket == bucket
      ensures blogs == [] && loading && !isAddingBlog && !dialogOpen && editingBlog == None
      ensures searchTerm == "" && formData == DefaultForm(user)
    {
      this.user := user;
      this.db := db;
      this.bucket := bucket;
      blogs := [];
      loading := true;
      isAddingBlog := false;
      dialogOpen := false;
      editingBlog := None;
      searchTerm := "";
      formData := DefaultForm(user);
    }

    /** The cards on screen. */
    function Shown(): seq<Post>
      reads this
    {
      SearchResults(blogs, searchTerm)
    }

    /**
     * `fetchBlogs`: on success the held list becomes the whole table, newest first;
     * on failure it is kept as it was. Either way loading ends.
     */
    method FetchBlogs(ok: bool)
      modifies this
      ensures blogs == if ok then db.SelectAll() else old(blogs)
      ensures !loading
      ensures isAddingBlog == old(isAddingBlog) && dialogOpen == old(dialogOpen)
      ensures editingBlog == old(editingBlog) && searchTerm == old(searchTerm) && formData == old(formData)
    {
      if ok {
        blogs := db.SelectAll();
      }
      loading := false;
    }

    /** The search box's `onChange`. */
    method SetSearchTerm(term: string)
      modifies this
      ensures searchTerm == term
      ensures blogs == old(blogs) && loading == old(loading) && isAddingBlog == old(isAddingBlog)
      ensures dialogOpen == old(dialogOpen) && editingBlog == old(editingBlog) && formData == old(formData)
    {
      searchTerm := term;
    }

    /** One of the form's `onChange` handlers: that field changes, the others stay. */
    method ChangeField(c: FieldChange)
      modifies this
      ensures formData == Changed(old(formData), c)
      ensures blogs == old(blogs) && loading == old(loading) && isAddingBlog == old(isAddingBlog)
      ensures dialogOpen == old(dialogOpen) && editingBlog == old(editingBlog) && searchTerm == old(searchTerm)
    {
      formData := Changed(formData, c);
    }

    /** The Edit button of a card: remember the post, seed the form from it, open the dialog. */
    method OpenEdit(blog: Post)
      modifies this
      ensures editingBlog == Some(blog) && formData == SeededForm(blog) && dialogOpen
      ensures blogs == old(blogs) && loading == old(loading) && isAddingBlog == old(isAddingBlog)
      ensures searchTerm == old(searchTerm)
    {
      editingBlog := Some(blog);
      formData := SeededForm(blog);
      dialogOpen := true;
    }

    /**
     * The dialog's `onOpenChange` (its trigger button, closing it from outside, and the
     * "Create First Post" button, which opens it the same way): opening changes
     * nothing else; closing forgets the edited post and resets the form.
     */
    method OnOpenChange(open: bool)
      modifies this
      ensures dialogOpen == open
      ensures open ==> editingBlog == old(editingBlog) && formData == old(formData)
      ensures !open ==> editingBlog == None && formData == DefaultForm(user)
      ensures blogs == old(blogs) && loading == old(loading) && isAddingBlog == old(isAddingBlog)
      ensures searchTerm == old(searchTerm)
    {
      dialogOpen := open;
      if !open {
        editingBlog := None;
        formData := DefaultForm(user);
      }
    }

    /** The Cancel button: it only closes the dialog, keeping the form and the edited post. */
    method Cancel()
      modifies this
      ensures !dialogOpen
      ensures editingBlog == old(editingBlog) && formData == old(formData)
      ensures blogs == old(blogs) && loading == old(loading) && isAddingBlog == old(isAddingBlog)
      ensures searchTerm == old(searchTerm)
    {
      dialogOpen := false;
    }

    /** `uploadImage`: store the file under its derived key; the public URL on success, null on failure. */
    method UploadImage(file: File, ms: nat, ok: bool) returns (url: Option<string>)
      modifies bucket
      ensures var key := StorageKey(UserIdText(user), ms, file.name);
        url == (if ok && key !in old(bucket.objects) then Some(bucket.PublicUrl(key)) else None) &&
        bucket.objects == (if url.Some? then old(bucket.objects)[key := file] else old(bucket.objects))
    {
      var key := StorageKey(UserIdText(user), ms, file.name);
      var uploaded := bucket.Upload(key, file, ok);
      if uploaded {
        url := Some(bucket.PublicUrl(key));
      } else {
        url := None;
      }
    }

    /**
     * `handleSubmit`. Phase one uploads a pending image; if that fails nothing is
     * written. Phase two updates the edited post or inserts a new one with the
     * operator as author. Only a successful write resets the form, forgets the edited
     * post, closes the dialog and refetches; any failure leaves all of these as they
     * were. `imageUrl` is the image reference the write carries.
     */
    method HandleSubmit(uploadMs: nat, uploadOk: bool, now: int, writeOk: bool, fetchOk: bool)
      returns (outcome: SubmitOutcome, imageUrl: Option<string>)
      requires Valid()
      modifies this, db, bucket
      ensures Valid()
      ensures outcome != Blocked
      ensures user.None? <==> outcome == NoUser
      ensures outcome == NoUser ==> unchanged(this) && unchanged(db) && unchanged(bucket)
      ensures user.Some? ==> !isAddingBlog && searchTerm == old(searchTerm)
      // phase one: the upload
      ensures old(formData).image.None? ==> outcome != UploadFailed && bucket.objects == old(bucket.objects)
      ensures user.Some? && old(formData).image.None? ==> imageUrl == ExistingImage(old(editingBlog))
      ensures user.Some? && old(formData).image.Some? ==>
        var key := StorageKey(user.value.id, uploadMs, old(formData).image.value.name);
        (outcome == UploadFailed <==> !uploadOk || key in old(bucket.objects)) &&
        (outcome == UploadFailed ==> bucket.objects == old(bucket.objects)) &&
        (outcome != UploadFailed ==>
          imageUrl == Some(bucket.PublicUrl(key)) &&
          bucket.objects == old(bucket.objects)[key := old(formData).image.value])
      // phase two: the write
      ensures outcome == SaveFailed || outcome == Saved ==> (outcome == Saved <==> writeOk)
      ensures outcome != Saved ==>
        db.rows == old(db.rows) && db.nextId == old(db.nextId) && blogs == old(blogs) &&
        loading == old(loading) && formData == old(formData) && editingBlog == old(editingBlog) &&
        dialogOpen == old(dialogOpen)
      ensures outcome == Saved && old(editingBlog).Some? ==>
        db.rows == UpdateWhere(old(db.rows), old(editingBlog).value.id, EditPatchFrom(old(formData), imageUrl, now)) &&
        db.nextId == old(db.nextId)
      ensures outcome == Saved && old(editingBlog).None? ==>
        db.rows == old(db.rows) + [Created(old(db.nextId), InsertRowFrom(old(formData), imageUrl, user.value.id), now)] &&
        db.nextId == old(db.nextId) + 1
      ensures outcome == Saved ==>
        formData == DefaultForm(user) && editingBlog == None && !dialogOpen && !loading &&
        blogs == if fetchOk then db.SelectAll() else old(blogs)
    {
      imageUrl := None;
      if user.None? {
        outcome := NoUser;
        return;
      }
      isAddingBlog := true;
      imageUrl := ExistingImage(editingBlog);
      if formData.image.Some? {
        var uploaded := UploadImage(formData.image.value, uploadMs, uploadOk);
        if OrNull(uploaded).None? {
          isAddingBlog := false;
          outcome := UploadFailed;
          return;
        }
        imageUrl := uploaded;
      }
      var saved := WritePost(imageUrl, now, writeOk);
      if !saved {
        isAddingBlog := false;
        outcome := SaveFailed;
        return;
      }
      FinishSave(fetchOk);
      isAddingBlog := false;
      outcome := Saved;
    }

    /**
     * Phase two of `handleSubmit`: update the edited post from the form, or insert a
     * new post whose author id is the operator's.
     */
    method WritePost(imageUrl: Option<string>, now: int, writeOk: bool) returns (saved: bool)
      requires Valid() && user.Some?
      modifies db
      ensures Valid()
      ensures saved == writeOk
      ensures !saved ==> db.rows == old(db.rows) && db.nextId == old(db.nextId)
      ensures saved && editingBlog.Some? ==>
        db.rows == UpdateWhere(old(db.rows), editingBlog.value.id, EditPatchFrom(formData, imageUrl, now)) &&
        db.nextId == old(db.nextId)
      ensures saved && editingBlog.None? ==>
        db.rows == old(db.rows) + [Created(old(db.nextId), InsertRowFrom(formData, imageUrl, user.value.id), now)] &&
        db.nextId == old(db.nextId) + 1
    {
      if editingBlog.Some? {
        saved := db.Update(editingBlog.value.id, EditPatchFrom(formData, imageUrl, now), writeOk);
      } else {
        var id;
        saved, id := db.Insert(InsertRowFrom(formData, imageUrl, user.value.id), now, writeOk);
      }
    }

    /** The end of a successful submit: reset the form, forget the edited post, close the dialog, refetch. */
    method FinishSave(fetchOk: bool)
      modifies this
      ensures formData == DefaultForm(user) && editingBlog == None && !dialogOpen && !loading
      ensures blogs == if fetchOk then db.SelectAll() else old(blogs)
      ensures isAddingBlog == old(isAddingBlog) && searchTerm == old(searchTerm)
    {
      formData := DefaultForm(user);
      dialogOpen := false;
      editingBlog := None;
      FetchBlogs(fetchOk);
    }

    /**
     * The form's submit: the browser refuses it while a required field is empty;
     * otherwise `handleSubmit` runs. A post saved this way has all required texts.
     */
    method SubmitForm(uploadMs: nat, uploadOk: bool, now: int, writeOk: bool, fetchOk: bool)
      returns (outcome: SubmitOutcome, imageUrl: Option<string>)
      requires Valid()
      modifies this, db, bucket
      ensures Valid()
      ensures outcome == Blocked <==> !RequiredFilled(old(formData))
      ensures outcome == Blocked ==> unchanged(this) && unchanged(db) && unchanged(bucket)
      // past the browser's check, everything `HandleSubmit` promises
      ensures outcome != Blocked ==> (user.None? <==> outcome == NoUser)
      ensures outcome == NoUser ==> unchanged(this) && unchanged(db) && unchanged(bucket)
      ensures outcome != Blocked && user.Some? ==> !isAddingBlog && searchTerm == old(searchTerm)
      ensures outcome != Blocked && old(formData).image.None? ==>
        outcome != UploadFailed && bucket.objects == old(bucket.objects)
      ensures outcome != Blocked && user.Some? && old(formData).image.None? ==> imageUrl == ExistingImage(old(editingBlog))
      ensures outcome != Blocked && user.Some? && old(formData).image.Some? ==>
        var key := StorageKey(user.value.id, uploadMs, old(formData).image.value.name);
        (outcome == UploadFailed <==> !uploadOk || key in old(bucket.objects)) &&
        (outcome == UploadFailed ==> bucket.objects == old(bucket.objects)) &&
        (outcome != UploadFailed ==>
          imageUrl == Some(bucket.PublicUrl(key)) &&
          bucket.objects == old(bucket.objects)[key := old(formData).image.value])
      ensures outcome == SaveFailed || outcome == Saved ==> (outcome == Saved <==> writeOk)
      ensures outcome != Saved ==>
        db.rows == old(db.rows) && db.nextId == old(db.nextId) && blogs == old(blogs) &&
        loading == old(loading) && formData == old(formData) && editingBlog == old(editingBlog) &&
        dialogOpen == old(dialogOpen)
      ensures outcome == Saved && old(editingBlog).Some? ==>
        db.rows == UpdateWhere(old(db.rows), old(editingBlog).value.id, EditPatchFrom(old(formData), imageUrl, now)) &&
        db.nextId == old(db.nextId)
      ensures outcome == Saved && old(editingBlog).None? ==>
        db.rows == old(db.rows) + [Created(old(db.nextId), InsertRowFrom(old(formData), imageUrl, user.value.id), now)] &&
        db.nextId == old(db.nextId) + 1
      ensures outcome == Saved ==>
        formData == DefaultForm(user) && editingBlog == None && !dialogOpen && !loading &&
        blogs == if fetchOk then db.SelectAll() else old(blogs)
      ensures outcome == Saved ==>
        var target := if old(editingBlog).Some? then old(editingBlog).value.id else old(db.nextId);
        forall i :: 0 <= i < |db.rows| && db.rows[i].id == target ==> RequiredFilled(SeededForm(db.rows[i]))
    {
      imageUrl := None;
      if !RequiredFilled(formData) {
        outcome := Blocked;
        return;
      }
      ghost var target := if editingBlog.Some? then editingBlog.value.id else db.nextId;
      ghost var form := formData;
      outcome, imageUrl := HandleSubmit(uploadMs, uploadOk, now, writeOk, fetchOk);
      if outcome == Saved && old(editingBlog).None? {
        assert forall i :: 0 <= i < |old(db.rows)| ==> old(db.rows)[i].id < target;
      }
    }

    /**
     * `togglePublish(blogId, currentStatus)`: writes `published = !currentStatus` and a
     * new `updated_at` to that id and nothing else; refetches on success.
     */
    method TogglePublish(blogId: Id, currentStatus: bool, now: int, writeOk: bool, fetchOk: bool)
      returns (success: bool)
      requires Valid()
      modifies this, db
      ensures Valid()
      ensures success == writeOk
      ensures db.rows == if success then UpdateWhere(old(db.rows), blogId, SetPublished(!currentStatus, now)) else old(db.rows)
      ensures db.nextId == old(db.nextId)
      ensures blogs == (if success && fetchOk then db.SelectAll() else old(blogs))
      ensures loading == (if success then false else old(loading))
      ensures formData == old(formData) && editingBlog == old(editingBlog) && dialogOpen == old(dialogOpen)
      ensures isAddingBlog == old(isAddingBlog) && searchTerm == old(searchTerm)
    {
      success := db.Update(blogId, SetPublished(!currentStatus, now), writeOk);
      if success {
        FetchBlogs(fetchOk);
      }
    }

    /** A card's Publish/Unpublish button: the status passed is the one in the held list. */
    method ClickToggle(k: nat, now: int, writeOk: bool, fetchOk: bool) returns (success: bool)
      requires Valid() && k < |Shown()|
      modifies this, db
      ensures Valid()
      ensures success == writeOk
      ensures var p := old(Shown()[k]);
        db.rows == if success then UpdateWhere(old(db.rows), p.id, SetPublished(!p.published, now)) else old(db.rows)
      ensures db.nextId == old(db.nextId)
      ensures blogs == (if success && fetchOk then db.SelectAll() else old(blogs))
      ensures loading == (if success then false else old(loading))
      ensures formData == old(formData) && editingBlog == old(editingBlog) && dialogOpen == old(dialogOpen)
      ensures isAddingBlog == old(isAddingBlog) && searchTerm == old(searchTerm)
    {
      var p := Shown()[k];
      success := TogglePublish(p.id, p.published, now, writeOk, fetchOk);
    }

    /**
     * `deleteBlog`: without confirmation nothing is called and nothing changes; with it,
     * the rows with that id are deleted and the list refetched.
     */
    method DeleteBlog(blogId: Id, confirmed: bool, writeOk: bool, fetchOk: bool) returns (outcome: DeleteOutcome)
      requires Valid()
      modifies this, db
      ensures Valid()
      ensures outcome == if !confirmed then Cancelled else if writeOk then Deleted else DeleteFailed
      ensures outcome == Cancelled ==> unchanged(this) && unchanged(db)
      ensures db.rows == if outcome == Deleted then DeleteWhere(old(db.rows), blogId) else old(db.rows)
      ensures db.nextId == old(db.nextId)
      ensures blogs == (if outcome == Deleted && fetchOk then db.SelectAll() else old(blogs))
      ensures loading == (if outcome == Deleted then false else old(loading))
      ensures formData == old(formData) && editingBlog == old(editingBlog) && dialogOpen == old(dialogOpen)
      ensures isAddingBlog == old(isAddingBlog) && searchTerm == old(searchTerm)
    {
      if !confirmed {
        return Cancelled;
      }
      var success := db.Delete(blogId, writeOk);
      if success {
        FetchBlogs(fetchOk);
        outcome := Deleted;
      } else {
        outcome := DeleteFailed;
      }
    }
  }
}
