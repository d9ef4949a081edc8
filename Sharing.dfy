/** The rules of the share-link handlers: tokens, expiry and password fields on create
    and update, the ordered checks of a public resolution, the share URL, and the orders
    of the share and folder listings. */
module Sharing {
  import opened Prelude
  import opened Models
  import opened Ordering
  import Hex

  /** The 32 bytes `crypto/rand` supplies for one token. */
  type TokenSeed = b: seq<byte> | |b| == 32 witness seq(32, _ => 0 as byte)

  /** The token: the lowercase hex encoding of the seed. */
  function Token(seed: TokenSeed): (t: string)
    ensures |t| == 64
    ensures forall i :: 0 <= i < |t| ==> Hex.IsHexDigit(t[i])
  {
    Hex.Encode(seed)
  }

  /** Distinct seeds give distinct tokens. */
  lemma TokenInjective(a: TokenSeed, b: TokenSeed)
    requires Token(a) == Token(b)
    ensures a == b
  {
    Hex.EncodeInjective(a, b);
  }

  // ---- Create and Update fields ----

  /** The expiry of a new share: `expiresIn` hours from now when given and positive. */
  function CreateExpiry(expiresIn: Option<int>, now: Time): (e: Option<Time>)
    ensures e.Some? <==> expiresIn.Some? && expiresIn.value > 0
    ensures e.Some? ==> e.value == now + expiresIn.value * Hour && e.value > now
  {
    if expiresIn.Some? && expiresIn.value > 0 then Some(now + expiresIn.value * Hour) else None
  }

  /** Whether Create stores a hash: only for a non-empty password. */
  predicate WantsPassword(password: Option<string>)
  {
    password.Some? && password.value != ""
  }

  /** The expiry after an update: absent leaves it, positive resets it, otherwise clears it. */
  function UpdatedExpiry(current: Option<Time>, expiresIn: Option<int>, now: Time): (e: Option<Time>)
    ensures expiresIn.None? ==> e == current
    ensures expiresIn.Some? ==> e == CreateExpiry(expiresIn, now)
  {
    if expiresIn.None? then current else CreateExpiry(expiresIn, now)
  }

  /** The stored hash after an update: absent leaves it, "" removes it, anything else
      replaces it with `hash`, the bcrypt hash of the new password. */
  function UpdatedPassword(current: Option<string>, password: Option<string>, hash: string): (p: Option<string>)
    ensures password.None? ==> p == current
    ensures password == Some("") ==> p.None?
    ensures WantsPassword(password) ==> p == Some(hash)
  {
    if password.None? then current
    else if password.value == "" then None
    else Some(hash)
  }

  // ---- Public resolution ----

  /** `expiresAt.Before(now)`: strictly in the past. */
  predicate IsExpired(expiresAt: Option<Time>, now: Time)
  {
    expiresAt.Some? && expiresAt.value < now
  }

  datatype Access = NoSuchLink | LinkExpired | PasswordRequired | WrongPassword | Granted

  function AccessStatus(a: Access): (code: int)
    ensures code == StatusOk <==> a == Granted
  {
    match a
    case NoSuchLink => StatusNotFound
    case LinkExpired => StatusGone
    case PasswordRequired => StatusUnauthorized
    case WrongPassword => StatusUnauthorized
    case Granted => StatusOk
  }

  /** The checks of `GetSharedFile` over the looked-up share, in their fixed order:
      not found, expired, password missing, password wrong. `matches` is bcrypt's compare. */
  function Check(link: Option<ShareLink>, password: string, now: Time,
                 matches: (string, string) -> bool): (a: Access)
    ensures a == NoSuchLink <==> link.None?
    ensures a == LinkExpired <==> link.Some? && IsExpired(link.value.expiresAt, now)
    ensures a == PasswordRequired <==>
      link.Some? && !IsExpired(link.value.expiresAt, now) && link.value.password.Some? && password == ""
    ensures a == WrongPassword <==>
      link.Some? && !IsExpired(link.value.expiresAt, now) && link.value.password.Some? && password != ""
      && !matches(link.value.password.value, password)
    ensures a == Granted <==>
      link.Some? && !IsExpired(link.value.expiresAt, now)
      && (link.value.password.None? || (password != "" && matches(link.value.password.value, password)))
  {
    match link
    case None => NoSuchLink
    case Some(l) =>
      if IsExpired(l.expiresAt, now) then LinkExpired
      else if l.password.Some? && password == "" then PasswordRequired
      else if l.password.Some? && !matches(l.password.value, password) then WrongPassword
      else Granted
  }

  /** A password set by an update is the one resolution then demands: after a new password
      a live link is granted exactly to a password bcrypt accepts against the new hash,
      after "" it is granted to anyone, and with no password given it keeps its old demand. */
  lemma UpdatedPasswordGoverns(l: ShareLink, password: Option<string>, hash: string, given: string,
                               now: Time, matches: (string, string) -> bool)
    requires !IsExpired(l.expiresAt, now)
    ensures var l2 := l.(password := UpdatedPassword(l.password, password, hash));
      var a := Check(Some(l2), given, now, matches);
      && (WantsPassword(password) ==> (a == Granted <==> given != "" && matches(hash, given)))
      && (password == Some("") ==> a == Granted)
      && (password.None? ==> a == Check(Some(l), given, now, matches))
  {
  }

  /** Expiry wins over the password: an expired link answers 410 even to the right one. */
  lemma ExpiredEvenWithPassword(l: ShareLink, password: string, now: Time, matches: (string, string) -> bool)
    requires IsExpired(l.expiresAt, now)
    ensures AccessStatus(Check(Some(l), password, now, matches)) == StatusGone
  {
  }

  /** The checks of `GetShareInfo`: the same lookup and expiry, no password. */
  function InfoCheck(link: Option<ShareLink>, now: Time): (a: Access)
    ensures a == NoSuchLink || a == LinkExpired || a == Granted
  {
    match link
    case None => NoSuchLink
    case Some(l) => if IsExpired(l.expiresAt, now) then LinkExpired else Granted
  }

  /** Given the same looked-up share, Info answers 404 and 410 exactly when a resolution
      would, whatever password the resolution is given. The two handlers look the share
      up differently: the download handler's lookup also fails for a folder share. */
  lemma InfoAgreesWithCheck(link: Option<ShareLink>, password: string, now: Time, matches: (string, string) -> bool)
    ensures InfoCheck(link, now) == NoSuchLink <==> Check(link, password, now, matches) == NoSuchLink
    ensures InfoCheck(link, now) == LinkExpired <==> Check(link, password, now, matches) == LinkExpired
  {
  }

  // ---- Table invariants ----

  /** The ids of the shares of one file. */
  function SharesOf(shares: map<string, ShareLink>, fileId: string): set<string>
  {
    set s | s in shares && shares[s].fileId == fileId
  }

  /** `token TEXT NOT NULL UNIQUE`. */
  ghost predicate TokensUnique(shares: map<string, ShareLink>)
  {
    forall a, b :: a in shares && b in shares && shares[a].token == shares[b].token ==> a == b
  }

  /** A file is marked shared exactly when some share refers to it. */
  ghost predicate SharedFlagsExact(files: map<string, FileRecord>, shares: map<string, ShareLink>)
  {
    forall k :: k in files ==> (files[k].isShared <==> SharesOf(shares, k) != {})
  }

  /** Two share tables with the same rows up to expiry and password have the same shares
      per file and the same tokens. */
  lemma SameTargets(after: map<string, ShareLink>, before: map<string, ShareLink>)
    requires after.Keys == before.Keys
    requires forall k :: k in after ==> after[k].fileId == before[k].fileId && after[k].token == before[k].token
    ensures forall f :: SharesOf(after, f) == SharesOf(before, f)
    ensures TokensUnique(before) ==> TokensUnique(after)
  {
  }

  /** The share holding `token`, if any. */
  ghost function ShareWithToken(shares: map<string, ShareLink>, token: string): (r: Option<string>)
    ensures r.Some? ==> r.value in shares && shares[r.value].token == token
    ensures r.None? ==> forall s :: s in shares ==> shares[s].token != token
  {
    if exists s :: s in shares && shares[s].token == token
    then Some(var s :| s in shares && shares[s].token == token; s)
    else None
  }

  /** The share row `share_links JOIN files` finds for `token`, when its file row exists. */
  ghost function JoinedShare(files: map<string, FileRecord>, shares: map<string, ShareLink>, token: string): (r: Option<ShareLink>)
    requires forall s :: s in shares ==> shares[s].id == s
    requires TokensUnique(shares)
    ensures r.Some? ==>
      r.value.token == token && r.value.id in shares && shares[r.value.id] == r.value && r.value.fileId in files
    ensures r.None? ==> forall s :: s in shares && shares[s].token == token ==> shares[s].fileId !in files
  {
    var sid := ShareWithToken(shares, token);
    if sid.Some? && shares[sid.value].fileId in files then Some(shares[sid.value]) else None
  }

  /** The row `GetSharedFile` obtains: it also scans `f.file_path` into a Go `string`, and
      that scan fails (the handler answers 404) when the column is NULL. */
  ghost function JoinedRow(files: map<string, FileRecord>, shares: map<string, ShareLink>, token: string): (r: Option<ShareLink>)
    requires forall s :: s in shares ==> shares[s].id == s
    requires TokensUnique(shares)
    ensures r.Some? ==> r == JoinedShare(files, shares, token) && files[r.value.fileId].filePath.Some?
    ensures r.None? ==>
      JoinedShare(files, shares, token).None? || files[JoinedShare(files, shares, token).value.fileId].filePath.None?
  {
    var j := JoinedShare(files, shares, token);
    if j.Some? && files[j.value.fileId].filePath.Some? then j else None
  }

  // ---- Finding: a shared folder never resolves ----

  /** As written: every folder share answers 404, whatever its expiry and password, so the
      folder-listing branch of `GetSharedFile` is never reached. */
  lemma FolderShareNotFound(files: map<string, FileRecord>, shares: map<string, ShareLink>, s: string,
                            password: string, now: Time, matches: (string, string) -> bool)
    requires forall k :: k in shares ==> shares[k].id == k
    requires TokensUnique(shares)
    requires forall k :: k in files && files[k].isFolder ==> files[k].filePath.None?
    requires s in shares && shares[s].fileId in files && files[shares[s].fileId].isFolder
    ensures AccessStatus(Check(JoinedRow(files, shares, shares[s].token), password, now, matches)) == StatusNotFound
  {
    var j := JoinedShare(files, shares, shares[s].token);
    assert j == Some(shares[s]);
  }

  /** Intended: the share is found whatever its file's location, and is then checked like
      any other; an unexpired folder share without a password is granted. */
  lemma FolderShareResolvesIntended(files: map<string, FileRecord>, shares: map<string, ShareLink>, s: string,
                                    password: string, now: Time, matches: (string, string) -> bool)
    requires forall k :: k in shares ==> shares[k].id == k
    requires TokensUnique(shares)
    requires s in shares && shares[s].fileId in files
    ensures JoinedShare(files, shares, shares[s].token) == Some(shares[s])
    ensures shares[s].password.None? && !IsExpired(shares[s].expiresAt, now) ==>
      Check(JoinedShare(files, shares, shares[s].token), password, now, matches) == Granted
  {
  }

  // ---- URLs ----

  /** `BASE_URL`, or `http://localhost:<PORT>` when it is empty. */
  function BaseUrl(envBaseUrl: string, envPort: string): (b: string)
    ensures envBaseUrl != "" ==> b == envBaseUrl
    ensures envBaseUrl == "" ==> b == "http://localhost:" + envPort
  {
    if envBaseUrl == "" then "http://localhost:" + envPort else envBaseUrl
  }

  function ShareUrl(base: string, token: string): (u: string)
    ensures |u| == |base| + 7 + |token|
    ensures u[..|base|] == base && u[|base|..|base| + 7] == "/share/" && u[|u| - |token|..] == token
  {
    base + "/share/" + token
  }

  /** The token is the tail of its URL, so one base never gives two tokens one URL. */
  lemma ShareUrlEndsWithToken(base: string, token: string, other: string)
    requires ShareUrl(base, token) == ShareUrl(base, other)
    ensures var u := ShareUrl(base, token); u[|u| - |token|..] == token
    ensures token == other
  {
    var u := ShareUrl(base, token);
    assert |token| == |other|;
    assert u[|u| - |token|..] == token;
    assert ShareUrl(base, other)[|u| - |other|..] == other;
  }

  // ---- Listing orders ----

  /** `ORDER BY is_folder DESC, original_name ASC`. */
  predicate FoldersThenName(a: FileRecord, b: FileRecord)
  {
    (a.isFolder && !b.isFolder) || (a.isFolder == b.isFolder && LexLe(a.originalName, b.originalName))
  }

  lemma FoldersThenNameIsPreorder()
    ensures Total(FoldersThenName) && Transitive(FoldersThenName)
  {
    forall a: FileRecord, b: FileRecord ensures FoldersThenName(a, b) || FoldersThenName(b, a) {
      LexLeTotal(a.originalName, b.originalName);
    }
    forall a: FileRecord, b: FileRecord, c: FileRecord | FoldersThenName(a, b) && FoldersThenName(b, c)
      ensures FoldersThenName(a, c)
    {
      if a.isFolder == b.isFolder == c.isFolder {
        LexLeTransitive(a.originalName, b.originalName, c.originalName);
      }
    }
  }

  /** One row of `ListUserShares`. */
  datatype ShareInfo = ShareInfo(
    id: string,
    token: string,
    fileId: string,
    fileName: string,
    isFolder: bool,
    expiresAt: Option<Time>,
    passwordProtected: bool,
    createdAt: Time,
    shareUrl: string)

  function InfoOf(l: ShareLink, f: FileRecord, base: string): (s: ShareInfo)
    ensures s.passwordProtected <==> l.password.Some?
    ensures s.shareUrl == ShareUrl(base, l.token)
  {
    ShareInfo(l.id, l.token, f.id, f.originalName, f.isFolder, l.expiresAt, l.password.Some?,
              l.createdAt, ShareUrl(base, l.token))
  }

  /** `ORDER BY sl.created_at DESC`. */
  predicate NewestFirst(a: ShareInfo, b: ShareInfo)
  {
    a.createdAt >= b.createdAt
  }

  lemma NewestFirstIsPreorder()
    ensures Total(NewestFirst) && Transitive(NewestFirst)
  {
  }
}
