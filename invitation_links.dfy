/** The director's invitation-link dialog for one classroom: it lists the
    classroom's active links newest first, asks a remote function to issue a
    link for a teacher or a parent, deletes links, and formats each link as
    a full URL and as a ready-to-send message. The link table and the
    issuing function live in the hosted database; what they answer is an
    input here. */
module InvitationLinks {
  import opened Options
  import opened Text
  import opened Roles

  /** A row of the invitation_links table; times are instants on one clock. */
  datatype InvitationLink = InvitationLink(
    id: string,
    token: string,
    classroomId: string,
    intendedRole: UserRole,
    createdAt: int,
    expiresAt: int,
    usedAt: Option<int>)

  datatype Classroom = Classroom(id: string, name: string, grade: GradeLevel)

  /** The answer to the link query: an error, or the rows of the table. */
  datatype LinkQuery = QueryFailed | QueryRows(rows: seq<InvitationLink>)

  /** The answer of the issuing function: a transport error with its
      message, or a reply whose `error` field may be set. */
  datatype InvokeResult = InvokeFailed(message: string) | InvokeReturned(error: Option<string>)

  const CreateFailedMessage: string := "Erreur lors de la création du lien"
  const DeleteFailedMessage: string := "Erreur lors de la suppression"

  // ---------------------------------------------------------------------
  // The active-link selection

  /** A link the dialog lists: it belongs to the classroom, has not been
      used, and expires strictly after now. */
  predicate IsActive(link: InvitationLink, classroomId: string, now: int)
  {
    link.classroomId == classroomId && link.usedAt.None? && link.expiresAt > now
  }

  /** The active rows, each as often as it occurs in the table. */
  function ActiveOnly(rows: seq<InvitationLink>, classroomId: string, now: int): (r: seq<InvitationLink>)
    ensures forall x :: multiset(r)[x] == if IsActive(x, classroomId, now) then multiset(rows)[x] else 0
  {
    if rows == [] then []
    else
      var rest := ActiveOnly(rows[1..], classroomId, now);
      assert rows == [rows[0]] + rows[1..];
      if IsActive(rows[0], classroomId, now) then [rows[0]] + rest else rest
  }

  predicate NewestFirst(s: seq<InvitationLink>)
  {
    forall i, j :: 0 <= i < j < |s| ==> s[i].createdAt >= s[j].createdAt
  }

  /** Insert one link into a newest-first list, ahead of every link created
      at the same time or earlier. */
  function InsertByDate(x: InvitationLink, s: seq<InvitationLink>): (r: seq<InvitationLink>)
    ensures multiset(r) == multiset(s) + multiset{x}
    ensures |r| == |s| + 1 && (r[0] == x || (s != [] && r[0] == s[0]))
  {
    if s == [] || s[0].createdAt <= x.createdAt then [x] + s
    else
      assert s == [s[0]] + s[1..];
      [s[0]] + InsertByDate(x, s[1..])
  }

  lemma {:induction false} InsertKeepsNewestFirst(x: InvitationLink, s: seq<InvitationLink>)
    requires NewestFirst(s)
    ensures NewestFirst(InsertByDate(x, s))
  {
    if s != [] && s[0].createdAt > x.createdAt {
      var rest := InsertByDate(x, s[1..]);
      InsertKeepsNewestFirst(x, s[1..]);
      assert s[0].createdAt >= rest[0].createdAt;
      var r := [s[0]] + rest;
      forall i, j | 0 <= i < j < |r| ensures r[i].createdAt >= r[j].createdAt {
        if i > 0 {
          assert r[i] == rest[i - 1] && r[j] == rest[j - 1];
        } else {
          assert r[j] == rest[j - 1];
        }
      }
    }
  }

  /** `order("created_at", { ascending: false })`, as an insertion sort. */
  function SortNewestFirst(s: seq<InvitationLink>): (r: seq<InvitationLink>)
    ensures NewestFirst(r)
    ensures multiset(r) == multiset(s)
  {
    if s == [] then []
    else
      assert s == [s[0]] + s[1..];
      var sorted := SortNewestFirst(s[1..]);
      InsertKeepsNewestFirst(s[0], sorted);
      InsertByDate(s[0], sorted)
  }

  /** What the dialog lists for a classroom at a given time. */
  function ActiveLinks(rows: seq<InvitationLink>, classroomId: string, now: int): (r: seq<InvitationLink>)
    ensures NewestFirst(r)
    ensures forall x :: multiset(r)[x] == if IsActive(x, classroomId, now) then multiset(rows)[x] else 0
  {
    SortNewestFirst(ActiveOnly(rows, classroomId, now))
  }

  /** The listed links are exactly the classroom's unused, unexpired links,
      each as often as in the table, newest first. */
  lemma ActiveLinksSpec(rows: seq<InvitationLink>, classroomId: string, now: int)
    ensures var r := ActiveLinks(rows, classroomId, now);
      && NewestFirst(r)
      && (forall x :: multiset(r)[x] == if IsActive(x, classroomId, now) then multiset(rows)[x] else 0)
      && (forall x :: x in r <==> x in rows && IsActive(x, classroomId, now))
  {
    var r := ActiveLinks(rows, classroomId, now);
    forall x ensures x in r <==> x in rows && IsActive(x, classroomId, now) {
      assert x in r <==> multiset(r)[x] > 0;
      assert x in rows <==> multiset(rows)[x] > 0;
    }
  }

  // ---------------------------------------------------------------------
  // Local removal after a delete

  /** `links.filter((l) => l.id !== linkId)` */
  function WithoutLink(links: seq<InvitationLink>, linkId: string): (r: seq<InvitationLink>)
    ensures |r| <= |links|
  {
    if links == [] then []
    else
      var rest := WithoutLink(links[1..], linkId);
      if links[0].id == linkId then rest else [links[0]] + rest
  }

  /** The removal drops every link with that id and keeps each other link
      as often as it was listed. */
  lemma {:induction false} WithoutLinkContents(links: seq<InvitationLink>, linkId: string)
    ensures forall x :: multiset(WithoutLink(links, linkId))[x] == if x.id == linkId then 0 else multiset(links)[x]
  {
    if links != [] {
      WithoutLinkContents(links[1..], linkId);
      assert links == [links[0]] + links[1..];
    }
  }

  /** The removal keeps the other links in their order: it acts on each
      part of a list separately. */
  lemma {:induction false} WithoutLinkKeepsOrder(a: seq<InvitationLink>, b: seq<InvitationLink>, linkId: string)
    ensures WithoutLink(a + b, linkId) == WithoutLink(a, linkId) + WithoutLink(b, linkId)
  {
    if a != [] {
      assert (a + b)[1..] == a[1..] + b;
      WithoutLinkKeepsOrder(a[1..], b, linkId);
    } else {
      assert a + b == b;
    }
  }

  /** Removing an id that no listed link carries changes nothing. */
  lemma {:induction false} WithoutAbsentLink(links: seq<InvitationLink>, linkId: string)
    requires forall k :: 0 <= k < |links| ==> links[k].id != linkId
    ensures WithoutLink(links, linkId) == links
  {
    if links != [] {
      WithoutAbsentLink(links[1..], linkId);
      assert links == [links[0]] + links[1..];
    }
  }

  // ---------------------------------------------------------------------
  // Formatting

  /** The badge text: French names for teachers and parents; any other
      role is shown as its code. */
  function RoleLabel(role: UserRole): (r: string)
    ensures r == RoleCode(role) <==> role == DIRECTOR
  {
    match role
    case TEACHER => "Enseignant"
    case PARENT => "Parent"
    case DIRECTOR => RoleCode(DIRECTOR)
  }

  /** The badge colour, a CSS custom property of the theme. */
  function RoleColor(role: UserRole): (r: string)
    ensures StartsWith(r, "var(--")
  {
    match role
    case TEACHER => "var(--accent-orange)"
    case PARENT => "var(--success-green)"
    case DIRECTOR => "var(--accent-purple)"
  }

  /** The link to hand out: the page's origin, `/invite/`, then the token. */
  function FullLink(origin: string, token: string): (r: string)
    ensures StartsWith(r, origin + "/invite/")
    ensures r[|origin| + |"/invite/"|..] == token
  {
    StartsWithConcat(origin + "/invite/", token);
    origin + "/invite/" + token
  }

  const MessageIntro: string :=
    "Bonjour, vous pouvez télécharger l'appli Futur Génie sur App Store / Google Play et créer un compte de type "
  const MessageClassroom: string := " lié à la classe "
  const MessageToken: string := " en introduisant le jeton secret suivant : "

  /** The text to send to the invited teacher or parent. */
  function InvitationMessage(token: string, role: UserRole, classroomName: string): (m: string)
    ensures |m| > |token| && m[|m| - |token|..] == token
  {
    MessageIntro + ToLower(RoleLabel(role)) + MessageClassroom + classroomName + MessageToken + token
  }

  /** The three roles get three different labels and three different
      colours; a director's link is labelled with the role code itself. */
  lemma LabelsAndColoursDistinct(r1: UserRole, r2: UserRole)
    ensures RoleLabel(r1) == RoleLabel(r2) <==> r1 == r2
    ensures RoleColor(r1) == RoleColor(r2) <==> r1 == r2
    ensures RoleLabel(DIRECTOR) == "DIRECTOR"
  {
  }

  /** How the message names each role. */
  function LowerLabel(role: UserRole): string
  {
    match role
    case TEACHER => "enseignant"
    case PARENT => "parent"
    case DIRECTOR => "director"
  }

  /** Lower-casing the displayed label gives the name the message uses. */
  lemma LowerCasedLabels(role: UserRole)
    ensures ToLower(RoleLabel(role)) == LowerLabel(role)
  {
    match role {
      case TEACHER => LowerCasedWord("Enseignant", "enseignant");
      case PARENT => LowerCasedWord("Parent", "parent");
      case DIRECTOR => LowerCasedWord("DIRECTOR", "director");
    }
  }

  lemma LowerCasedWord(word: string, lower: string)
    requires |word| == |lower| && forall k :: 0 <= k < |word| ==> LowerChar(word[k]) == lower[k]
    ensures ToLower(word) == lower
  {
  }

  /** The message names the role in lower case and the classroom, and ends
      with the token. */
  lemma MessageContents(token: string, role: UserRole, classroomName: string)
    ensures var m := InvitationMessage(token, role, classroomName);
      && StartsWith(m, MessageIntro + LowerLabel(role) + MessageClassroom + classroomName + MessageToken)
      && m[|m| - |token|..] == token
  {
    LowerCasedLabels(role);
    var head := MessageIntro + LowerLabel(role) + MessageClassroom + classroomName + MessageToken;
    StartsWithConcat(head, token);
    assert (head + token)[|head|..] == token;
  }

  // ---------------------------------------------------------------------
  // The dialog's state

  /** What the create button reports when the issuing function fails:
      the transport error's message (or a default when it is empty), or the
      reply's non-empty `error` field. None means the link was issued. */
  function CreateFailure(result: InvokeResult): (alert: Option<string>)
    ensures alert.Some? ==> alert.value != ""
    ensures alert.None? <==> result.InvokeReturned? && (result.error.None? || result.error.value == "")
    ensures result.InvokeFailed? && result.message != "" ==> alert == Some(result.message)
    ensures result.InvokeReturned? && alert.Some? ==> alert == result.error
  {
    match result
    case InvokeFailed(m) => Some(if m == "" then CreateFailedMessage else m)
    case InvokeReturned(e) => if e.Some? && e.value != "" then Some(e.value) else None
  }

  class InvitationLinksModal {
    const classroom: Classroom
    var links: seq<InvitationLink>
    var loading: bool
    var creating: Option<UserRole>

    constructor (classroom: Classroom)
      ensures this.classroom == classroom
      ensures links == [] && loading && creating == None
    {
      this.classroom := classroom;
      links := [];
      loading := true;
      creating := None;
    }

    /** Both create buttons are disabled while a link is being issued. */
    predicate CreateButtonsDisabled()
      reads this
    {
      creating.Some?
    }

    /** Query the classroom's active links; on an error the list stays as it
        was. Either way loading ends. */
    method LoadLinks(query: LinkQuery, now: int)
      modifies this
      ensures !loading && creating == old(creating)
      ensures links == match query
        case QueryFailed => old(links)
        case QueryRows(rows) => ActiveLinks(rows, classroom.id, now)
    {
      match query {
        case QueryFailed =>
        case QueryRows(rows) =>
          links := ActiveLinks(rows, classroom.id, now);
      }
      loading := false;
    }

    /** A press on the create button for `role`: ignored while the buttons
        are disabled, otherwise the issuing starts. */
    method StartCreateLink(role: UserRole) returns (started: bool)
      modifies this
      ensures started <==> !old(CreateButtonsDisabled())
      ensures creating == if started then Some(role) else old(creating)
      ensures started ==> CreateButtonsDisabled()
      ensures links == old(links) && loading == old(loading)
    {
      started := creating.None?;
      if started {
        creating := Some(role);
      }
    }

    /** The issuing function has answered: on success the list is reloaded,
        on failure the message is shown and the list is left alone; the
        buttons are enabled again whatever happened. */
    method FinishCreateLink(result: InvokeResult, reload: LinkQuery, now: int) returns (alert: Option<string>)
      modifies this
      ensures creating == None && !CreateButtonsDisabled()
      ensures alert == CreateFailure(result)
      ensures alert.Some? ==> links == old(links) && loading == old(loading)
      ensures alert.None? ==> !loading && links == match reload
        case QueryFailed => old(links)
        case QueryRows(rows) => ActiveLinks(rows, classroom.id, now)
    {
      alert := CreateFailure(result);
      if alert.None? {
        LoadLinks(reload, now);
      }
      creating := None;
    }

    /** Delete a link after the user confirms: on success it leaves the list,
        on failure an alert is shown; a cancelled or failed delete leaves the
        list as it was. */
    method DeleteLink(linkId: string, confirmed: bool, deleted: bool) returns (alert: Option<string>)
      modifies this
      ensures links == if confirmed && deleted then WithoutLink(old(links), linkId) else old(links)
      ensures alert == if confirmed && !deleted then Some(DeleteFailedMessage) else None
      ensures loading == old(loading) && creating == old(creating)
    {
      alert := None;
      if !confirmed {
        return;
      }
      if deleted {
        links := WithoutLink(links, linkId);
      } else {
        alert := Some(DeleteFailedMessage);
      }
    }
  }
}
