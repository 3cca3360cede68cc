/** Submitting the post editor (`submitPost`): the guards that stop a
    submission before any request, the request itself (create or update),
    and where the page goes once the request settles. */
module Editor {
  import opened Common
  import opened Staging

  /** The editor as the user leaves it. `editingPostId` is the post being
      edited, if any; `user` is the signed-in user's id, if any. */
  datatype Form = Form(
    title: string,
    content: string,
    topicId: Option<string>,
    user: Option<int>,
    editingPostId: Option<int>,
    staged: seq<StagedImage>)

  datatype PostBody = PostBody(title: string, content: string, authorId: int,
                               categoryId: Option<string>, images: seq<string>)

  /** `POST /api/posts/create` or `PUT /api/posts/<id>`. */
  datatype Request = Create(body: PostBody) | Update(postId: int, body: PostBody)

  /** Why no request went out: the two validation alerts, and the generic
      error alert raised when building the body reads the id of a missing
      user. */
  datatype Abort = MissingTitle | MissingImages | NoSignedInUser

  datatype Submission = Send(request: Request) | Stop(why: Abort)

  /** JavaScript truthiness of the editing id: absent and 0 are false. */
  predicate Editing(id: Option<int>) {
    id.Some? && id.value != 0
  }

  function Submit(f: Form): (s: Submission)
    ensures f.title == [] ==> s == Stop(MissingTitle)
    ensures f.title != [] && |f.staged| == 0 ==> s == Stop(MissingImages)
    ensures f.title != [] && |f.staged| > 0 && f.user.None? ==> s == Stop(NoSignedInUser)
    ensures s.Send? <==> f.title != [] && |f.staged| > 0 && f.user.Some?
    ensures s.Send? ==> (s.request.Update? <==> Editing(f.editingPostId))
    ensures s.Send? && s.request.Update? ==> s.request.postId == f.editingPostId.value
    ensures s.Send? ==> s.request.body.title == f.title && s.request.body.authorId == f.user.value
    ensures s.Send? ==> s.request.body.content == f.content && s.request.body.categoryId == f.topicId
    ensures s.Send? ==> s.request.body.images == SentUrls(f.staged)
  {
    if f.title == [] then Stop(MissingTitle)
    else if |f.staged| == 0 then Stop(MissingImages)
    else if f.user.None? then Stop(NoSignedInUser)
    else
      var body := PostBody(f.title, f.content, f.user.value, f.topicId, SentUrls(f.staged));
      if Editing(f.editingPostId) then Send(Update(f.editingPostId.value, body))
      else Send(Create(body))
  }

  /** How the request settled: any HTTP reply (the status is not looked
      at) or a thrown error. */
  datatype Settled = Replied | Threw

  /** What the page does next. */
  datatype Next = GoToProfile(userId: int) | ReopenViewer(postId: int) | ReloadPage | ErrorAlert

  /** The step after the request: a new post leads to the author's
      profile; an edit re-opens the viewer when the editor was launched
      from it (clearing that flag) and reloads the page otherwise. The
      second component is the flag afterwards. */
  function AfterSubmit(request: Request, openedFromViewer: bool, settled: Settled): (r: (Next, bool))
    ensures settled == Threw ==> r == (ErrorAlert, openedFromViewer)
    ensures settled == Replied && request.Create? ==> r.0 == GoToProfile(request.body.authorId)
    ensures settled == Replied && request.Update? ==>
              (r.0 == ReopenViewer(request.postId) <==> openedFromViewer)
    ensures settled == Replied && request.Update? && !openedFromViewer ==> r.0 == ReloadPage
    ensures r.1 ==> openedFromViewer
    ensures r.0.ReopenViewer? ==> !r.1
  {
    match settled
    case Threw => (ErrorAlert, openedFromViewer)
    case Replied =>
      match request
      case Create(body) => (GoToProfile(body.authorId), openedFromViewer)
      case Update(id, _) =>
        if openedFromViewer then (ReopenViewer(id), false) else (ReloadPage, openedFromViewer)
  }

  /** A worked submission: title "Test", one freshly uploaded image and
      topic "3" create a post carrying the original URL, and the author
      is taken to their profile. */
  lemma NewPostExample(user: int, original: string, thumbnail: string)
    ensures var f := Form("Test", "", Some("3"), Some(user), None, [Uploaded(original, thumbnail)]);
            Submit(f) == Send(Create(PostBody("Test", "", user, Some("3"), [original])))
            && AfterSubmit(Submit(f).request, false, Replied).0 == GoToProfile(user)
  {
  }

  /** For every form that is sent and answered, the author's profile
      opens exactly when the form was not editing a post; an edit goes
      back to the viewer or reloads instead. */
  lemma ProfileOnlyAfterCreate(f: Form, openedFromViewer: bool)
    requires Submit(f).Send?
    ensures AfterSubmit(Submit(f).request, openedFromViewer, Replied).0 == GoToProfile(f.user.value)
        <==> !Editing(f.editingPostId)
  {
  }

  /** Re-saving an unchanged edited post sends its own image URLs back. */
  lemma ResaveKeepsImages(title: string, user: int, id: int, urls: seq<string>)
    requires title != [] && |urls| > 0 && id != 0
    ensures Submit(Form(title, "", None, Some(user), Some(id), LoadForEdit(urls)))
         == Send(Update(id, PostBody(title, "", user, None, urls)))
  {
  }
}
