/** The local-account part of the user model: e-mail canonicalisation,
    get-or-create of e-mail and OpenId records, claims, the salted password
    layout, user URLs, and project roles (naming and the role-graph walk). */
module Auth {
  import opened Wrappers
  import opened Text
  import opened Sets

  /** Object ids, as the text `'%s' % _id` gives. */
  type ObjectId = string

  const SaltLength := 8
  const HashPrefix := "sha256"

  // ---------------------------------------------------------------- e-mail

  function Count(s: string, c: char): nat {
    if s == [] then 0 else (if s[0] == c then 1 else 0) + Count(s[1..], c)
  }

  lemma {:induction false} CountAppend(a: string, b: string, c: char)
    ensures Count(a + b, c) == Count(a, c) + Count(b, c)
  {
    if a != [] {
      assert (a + b)[0] == a[0];
      assert (a + b)[1..] == a[1..] + b;
      CountAppend(a[1..], b, c);
    } else {
      assert a + b == b;
    }
  }

  lemma {:induction false} CountAbsent(s: string, c: char)
    ensures Count(s, c) == 0 <==> c !in s
  {
    if s != [] {
      CountAbsent(s[1..], c);
      assert s == [s[0]] + s[1..];
    }
  }

  /** `EmailAddress.canonical`: `addr.split('@')` must give exactly two parts,
      and only the domain is lower-cased. */
  function Canonical(addr: string): (r: Option<string>)
    ensures r.Some? ==> |r.value| == |addr|
  {
    var k := Find(addr, '@');
    if k < 0 then None
    else
      var domain := addr[k + 1..];
      if Find(domain, '@') >= 0 then None else Some(addr[..k] + "@" + Lower(domain))
  }

  /** The count of `c` around one occurrence of it. */
  lemma CountAround(s: string, k: int, c: char)
    requires 0 <= k < |s| && s[k] == c
    ensures Count(s, c) == Count(s[..k], c) + 1 + Count(s[k + 1..], c)
  {
    assert s == s[..k] + ([s[k]] + s[k + 1..]);
    CountAppend(s[..k], [s[k]] + s[k + 1..], c);
    CountAppend([s[k]], s[k + 1..], c);
  }

  /** The address is accepted exactly when it holds one `@`. */
  lemma CanonicalDefined(addr: string)
    ensures Canonical(addr).Some? <==> Count(addr, '@') == 1
  {
    var k := Find(addr, '@');
    FindSpec(addr, '@');
    if k >= 0 {
      var domain := addr[k + 1..];
      FindSpec(domain, '@');
      CountAbsent(addr[..k], '@');
      CountAbsent(domain, '@');
      CountAround(addr, k, '@');
    } else {
      CountAbsent(addr, '@');
    }
  }

  /** An address `local@domain` becomes `local@` followed by the lower-cased domain. */
  lemma CanonicalOf(local: string, domain: string)
    requires '@' !in local && '@' !in domain
    ensures Canonical(local + "@" + domain) == Some(local + "@" + Lower(domain))
  {
    var addr := local + "@" + domain;
    var k := |local|;
    assert addr[..k] == local;
    FindFirst(addr, '@', k);
    assert addr[k + 1..] == domain;
    FindSpec(domain, '@');
  }

  lemma LowerIdempotent(s: string)
    ensures Lower(Lower(s)) == Lower(s)
    ensures '@' in Lower(s) <==> '@' in s
  {
    assert forall i :: 0 <= i < |s| ==> (Lower(s)[i] == '@' <==> s[i] == '@');
  }

  /** Canonicalising twice is canonicalising once. */
  lemma CanonicalIdempotent(addr: string)
    requires Canonical(addr).Some?
    ensures Canonical(Canonical(addr).value) == Canonical(addr)
  {
    var k := Find(addr, '@');
    FindSpec(addr, '@');
    var local, domain := addr[..k], addr[k + 1..];
    FindSpec(domain, '@');
    LowerIdempotent(domain);
    CanonicalOf(local, Lower(domain));
  }

  // ------------------------------------------------------ records and claims

  datatype EmailRecord = EmailRecord(claimedBy: Option<ObjectId>, confirmed: bool, nonce: string)
  datatype OpenIdRecord = OpenIdRecord(claimedBy: Option<ObjectId>, displayIdentifier: string)

  const NewEmailRecord := EmailRecord(None, false, "")

  /** `list.append(x)` unless `x in list`. */
  function ClaimList(list: seq<string>, x: string): (r: seq<string>)
    ensures x in r
    ensures forall y :: y in r <==> y in list || y == x
    ensures list <= r && |r| <= |list| + 1
  {
    if x in list then list else list + [x]
  }

  predicate Distinct(list: seq<string>) {
    forall i, j :: 0 <= i < j < |list| ==> list[i] != list[j]
  }

  /** Claiming keeps a duplicate-free list duplicate-free, and claiming twice is
      claiming once. */
  lemma ClaimListProperties(list: seq<string>, x: string)
    ensures Distinct(list) ==> Distinct(ClaimList(list, x))
    ensures ClaimList(ClaimList(list, x), x) == ClaimList(list, x)
  {
  }

  /** The shared store of e-mail and OpenId records. */
  class Directory {
    var emails: map<string, EmailRecord>
    var openIds: map<string, OpenIdRecord>

    constructor ()
      ensures emails == map[] && openIds == map[]
    {
      emails := map[];
      openIds := map[];
    }

    /** `EmailAddress.upsert`: the record under the canonical address, created
        when missing; a malformed address raises. */
    method UpsertEmail(addr: string) returns (key: Option<string>)
      modifies this
      ensures key == Canonical(addr)
      ensures openIds == old(openIds)
      ensures key.None? ==> emails == old(emails)
      ensures key.Some? && key.value in old(emails) ==> emails == old(emails)
      ensures key.Some? && key.value !in old(emails) ==> emails == old(emails)[key.value := NewEmailRecord]
    {
      key := Canonical(addr);
      if key.Some? && key.value !in emails {
        emails := emails[key.value := NewEmailRecord];
      }
    }

    /** `OpenId.upsert`: the record under `url`, created with `display` when
        missing; an existing record keeps its display identifier. */
    method UpsertOpenId(url: string, display: string)
      modifies this
      ensures emails == old(emails)
      ensures url in old(openIds) ==> openIds == old(openIds)
      ensures url !in old(openIds) ==> openIds == old(openIds)[url := OpenIdRecord(None, display)]
    {
      if url !in openIds {
        openIds := openIds[url := OpenIdRecord(None, display)];
      }
    }
  }

  // -------------------------------------------------------------- passwords

  /** `encode_password(password, salt)`; `digest` stands for base64 of SHA-256. */
  function EncodePassword(digest: string -> string, password: string, salt: string): (r: string)
    ensures StartsWith(r, HashPrefix)
    ensures |salt| == SaltLength ==> |r| >= 6 + SaltLength && r[6..6 + SaltLength] == salt
  {
    HashPrefix + salt + digest(salt + password)
  }

  /** `stored[6:6+SALT_LEN]`, cut short by the end of the string. */
  function SaltOf(stored: string): (salt: string)
    ensures |salt| <= SaltLength
    ensures |stored| >= 6 + SaltLength ==> salt == stored[6..6 + SaltLength]
  {
    if |stored| <= 6 then []
    else if |stored| < 6 + SaltLength then stored[6..]
    else stored[6..6 + SaltLength]
  }

  class User {
    var id: ObjectId
    var username: string
    var displayName: string
    var openIds: seq<string>
    var emailAddresses: seq<string>
    var password: Option<string>

    constructor (id: ObjectId, username: string, displayName: string)
      ensures this.id == id && this.username == username && this.displayName == displayName
      ensures openIds == [] && emailAddresses == [] && password == None
    {
      this.id := id;
      this.username := username;
      this.displayName := displayName;
      openIds := [];
      emailAddresses := [];
      password := None;
    }

    /** `url()`. */
    function Url(): (r: string)
      reads this
      ensures StartsWith(r, "/users/") && |r| == |username| + 8
      ensures r[7..|r| - 1] == username && r[|r| - 1] == '/'
    {
      "/users/" + username + "/"
    }

    /** `_set_password_local`, with the salt supplied by the caller. */
    method SetPasswordLocal(digest: string -> string, p: string, salt: string)
      modifies this
      ensures password == Some(EncodePassword(digest, p, salt))
      ensures id == old(id) && username == old(username) && displayName == old(displayName)
      ensures openIds == old(openIds) && emailAddresses == old(emailAddresses)
    {
      password := Some(EncodePassword(digest, p, salt));
    }

    /** `_validate_password_local`: false with no stored password; otherwise
        re-encodes `p` with the stored salt and compares. */
    function ValidatePasswordLocal(digest: string -> string, p: string): (ok: bool)
      reads this
      ensures password.None? || password == Some([]) ==> !ok
      ensures ok ==> password.Some? && password.value == EncodePassword(digest, p, SaltOf(password.value))
    {
      match password
      case None => false
      case Some(stored) => stored != [] && EncodePassword(digest, p, SaltOf(stored)) == stored
    }

    /** `claim_openid`. */
    method ClaimOpenId(dir: Directory, url: string)
      modifies this, dir
      ensures dir.emails == old(dir.emails)
      ensures url in dir.openIds && dir.openIds[url].claimedBy == Some(id)
      ensures url in old(dir.openIds) ==> dir.openIds[url] == old(dir.openIds[url]).(claimedBy := Some(id))
      ensures url !in old(dir.openIds) ==> dir.openIds[url] == OpenIdRecord(Some(id), old(displayName))
      ensures forall u :: u in dir.openIds <==> u in old(dir.openIds) || u == url
      ensures forall u :: u in old(dir.openIds) && u != url ==> dir.openIds[u] == old(dir.openIds[u])
      ensures openIds == ClaimList(old(openIds), url)
      ensures id == old(id) && username == old(username) && displayName == old(displayName)
      ensures emailAddresses == old(emailAddresses) && password == old(password)
    {
      dir.UpsertOpenId(url, displayName);
      dir.openIds := dir.openIds[url := dir.openIds[url].(claimedBy := Some(id))];
      if url in openIds {
        return;
      }
      openIds := openIds + [url];
    }

    /** `claim_address`: a malformed address raises before anything changes. */
    method ClaimAddress(dir: Directory, email: string) returns (ok: bool)
      modifies this, dir
      ensures ok <==> Canonical(email).Some?
      ensures dir.openIds == old(dir.openIds)
      ensures !ok ==> dir.emails == old(dir.emails) && emailAddresses == old(emailAddresses)
      ensures ok ==> var addr := Canonical(email).value;
                     && addr in dir.emails && dir.emails[addr].claimedBy == Some(id)
                     && (addr in old(dir.emails) ==> dir.emails[addr] == old(dir.emails[addr]).(claimedBy := Some(id)))
                     && (addr !in old(dir.emails) ==> dir.emails[addr] == NewEmailRecord.(claimedBy := Some(id)))
                     && (forall a :: a in dir.emails <==> a in old(dir.emails) || a == addr)
                     && (forall a :: a in old(dir.emails) && a != addr ==> dir.emails[a] == old(dir.emails[a]))
                     && emailAddresses == ClaimList(old(emailAddresses), addr)
      ensures id == old(id) && username == old(username) && displayName == old(displayName)
      ensures openIds == old(openIds) && password == old(password)
    {
      var canonical := Canonical(email);
      if canonical.None? {
        return false;
      }
      var addr := canonical.value;
      CanonicalIdempotent(email);
      var key := dir.UpsertEmail(addr);
      dir.emails := dir.emails[addr := dir.emails[addr].(claimedBy := Some(id))];
      ok := true;
      if addr in emailAddresses {
        return;
      }
      emailAddresses := emailAddresses + [addr];
    }
  }

  /** Setting a password and then checking the same password succeeds, for any
      salt of the right length and any digest. */
  lemma PasswordRoundTrip(digest: string -> string, p: string, salt: string)
    requires |salt| == SaltLength
    ensures SaltOf(EncodePassword(digest, p, salt)) == salt
    ensures EncodePassword(digest, p, SaltOf(EncodePassword(digest, p, salt))) == EncodePassword(digest, p, salt)
  {
  }

  method SetThenValidate(u: User, digest: string -> string, p: string, salt: string) returns (ok: bool)
    requires |salt| == SaltLength
    modifies u
    ensures ok
  {
    u.SetPasswordLocal(digest, p, salt);
    PasswordRoundTrip(digest, p, salt);
    ok := u.ValidatePasswordLocal(digest, p);
  }

  // ------------------------------------------------------------------ roles

  datatype UserInfo = UserInfo(id: ObjectId, username: string, displayName: string)

  datatype Role = Role(id: ObjectId, name: string, userId: Option<ObjectId>, roles: seq<ObjectId>)

  /** `ProjectRole.special`; an unset name is the empty string. */
  function Special(r: Role): (special: bool)
    ensures special ==> r.name != [] || r.userId.Some?
    ensures r.name != [] ==> (special <==> r.name[0] == '*')
    ensures r.name == [] ==> (special <==> r.userId.Some?)
  {
    if r.name != [] then r.name[0] == '*' else r.userId.Some?
  }

  /** `ProjectRole.display`: the name, else `*user-` and the user's name, display
      name or id; a user id with no stored user raises. */
  function Display(r: Role, users: map<ObjectId, UserInfo>): (d: Option<string>)
    ensures d.None? <==> r.name == [] && r.userId.Some? && r.userId.value !in users
    ensures r.name != [] ==> d == Some(r.name)
    ensures r.name == [] && r.userId.Some? && r.userId.value in users ==>
              d.Some? && StartsWith(d.value, "*user-") &&
              (users[r.userId.value].username != [] ==> d.value[6..] == users[r.userId.value].username)
    ensures r.name == [] && r.userId.None? ==> d.Some? && StartsWith(d.value, "**unknown name role: ")
  {
    if r.name != [] then Some(r.name)
    else if r.userId.Some? then
      if r.userId.value !in users then None
      else
        var u := users[r.userId.value];
        var uname := if u.username != [] then u.username else if u.displayName != [] then u.displayName else u.id;
        Some("*user-" + uname)
    else Some("**unknown name role: " + r.id)
  }

  /** A role is special exactly when it is displayed with a leading `*`, unless
      it has neither a name nor a user. */
  lemma SpecialIsStarred(r: Role, users: map<ObjectId, UserInfo>)
    requires Display(r, users).Some?
    requires r.name != [] || r.userId.Some?
    ensures Special(r) <==> Display(r, users).value[0] == '*'
  {
  }

  type Roles = map<ObjectId, Role>

  /** Roles are stored under their own id. */
  predicate KeyedById(store: Roles) {
    forall k :: k in store ==> store[k].id == k
  }

  predicate NoDuplicates(s: seq<ObjectId>) {
    forall i, j :: 0 <= i < j < |s| ==> s[i] != s[j]
  }

  function Elements(s: seq<ObjectId>): set<ObjectId> {
    set x | x in s
  }

  /** Every stored child of every stored role in `out` has been visited. */
  ghost predicate ChildrenVisited(store: Roles, out: seq<ObjectId>, visited: set<ObjectId>) {
    forall k, c :: 0 <= k < |out| && out[k] in store && c in store[out[k]].roles && c in store ==> c in visited
  }

  /** `ProjectRole.role_iter(visited)`: `self` first unless already visited, then
      the walk of each stored sub-role in order, sharing `visited`. It ends on
      any role graph, cycles included, because every recursive walk starts
      from a stored role not yet visited. */
  method RoleIter(store: Roles, self: Role, visited0: set<ObjectId>) returns (out: seq<ObjectId>, visited: set<ObjectId>)
    requires KeyedById(store)
    requires self.id in store ==> store[self.id] == self
    ensures self.id in visited0 ==> out == [] && visited == visited0
    ensures self.id !in visited0 ==> out != [] && out[0] == self.id
    ensures NoDuplicates(out)
    ensures forall i :: 0 <= i < |out| ==> out[i] !in visited0
    ensures forall i :: 1 <= i < |out| ==> out[i] in store
    ensures visited == visited0 + Elements(out)
    ensures self.id !in visited0 ==> forall c :: c in self.roles && c in store ==> c in visited
    ensures ChildrenVisited(store, out, visited)
    ensures ReachedFrom(store, self.roles, out)
    decreases |store.Keys - visited0|, if self.id in store then 0 else 1, 2
  {
    if self.id in visited0 {
      return [], visited0;
    }
    out, visited := WalkChildren(store, self, visited0);
    CloseWalk(store, self, out, visited);
  }

  /** The body of `role_iter` after `self` is yielded: the loop over `self.roles`. */
  method WalkChildren(store: Roles, self: Role, visited0: set<ObjectId>) returns (out: seq<ObjectId>, visited: set<ObjectId>)
    requires KeyedById(store)
    requires self.id in store ==> store[self.id] == self
    requires self.id !in visited0
    ensures Walked(store, self.id, out, visited0, visited)
    ensures forall j :: 0 <= j < |self.roles| && self.roles[j] in store ==> self.roles[j] in visited
    ensures ReachedFrom(store, self.roles, out)
    decreases |store.Keys - visited0|, if self.id in store then 0 else 1, 1
  {
    out := [self.id];
    visited := visited0 + {self.id};
    assert Elements(out) == {self.id};
    var i := 0;
    while i < |self.roles|
      invariant 0 <= i <= |self.roles|
      invariant Walked(store, self.id, out, visited0, visited)
      invariant forall j :: 0 <= j < i && self.roles[j] in store ==> self.roles[j] in visited
      invariant ReachedFrom(store, self.roles, out)
    {
      var rid := self.roles[i];
      ghost var before := visited;
      if rid in store {
        assert self.id in Elements(out);
        Closer(store.Keys, visited0, visited, self.id);
        out, visited := VisitChild(store, self.id, self.roles, rid, visited0, out, visited);
      }
      StoredVisited(store, self.roles, i, before, visited);
      i := i + 1;
    }
  }

  /** The stored children among the first `i + 1` stay visited when `visited` grows
      to cover child `i`. */
  lemma StoredVisited(store: Roles, roles: seq<ObjectId>, i: int, before: set<ObjectId>, after: set<ObjectId>)
    requires 0 <= i < |roles|
    requires forall j :: 0 <= j < i && roles[j] in store ==> roles[j] in before
    requires before <= after
    requires roles[i] in store ==> roles[i] in after
    ensures forall j :: 0 <= j < i + 1 && roles[j] in store ==> roles[j] in after
  {
  }

  /** One turn of that loop: the walk of the stored sub-role `rid` is appended. */
  method VisitChild(store: Roles, selfId: ObjectId, ghost roots: seq<ObjectId>, rid: ObjectId, visited0: set<ObjectId>,
                    out0: seq<ObjectId>, visitedIn: set<ObjectId>) returns (out: seq<ObjectId>, visited: set<ObjectId>)
    requires KeyedById(store)
    requires rid in store && rid in roots
    requires Walked(store, selfId, out0, visited0, visitedIn)
    requires ReachedFrom(store, roots, out0)
    ensures Walked(store, selfId, out, visited0, visited)
    ensures visitedIn <= visited && rid in visited
    ensures ReachedFrom(store, roots, out)
    decreases |store.Keys - visitedIn|, 0, 3
  {
    var more, visited' := RoleIter(store, store[rid], visitedIn);
    AppendWalk(store, selfId, out0, more, visited0, visitedIn, visited');
    AppendReached(store, roots, rid, out0, more);
    out, visited := out0 + more, visited';
  }

  /** Visiting `x` does not move the walk away from the store's ids, and moves
      it closer when `x` is stored. */
  lemma Closer(keys: set<ObjectId>, visited0: set<ObjectId>, visited: set<ObjectId>, x: ObjectId)
    requires visited0 <= visited && x in visited && x !in visited0
    ensures |keys - visited| <= |keys - visited0|
    ensures x in keys ==> |keys - visited| < |keys - visited0|
  {
    SubsetCard(keys - visited, keys - visited0);
    if x in keys {
      ShrinkAfterCreate(keys, visited0, visited, x);
    }
  }

  /** The state of a walk from `self`: what it has yielded and visited so far. */
  ghost predicate Walked(store: Roles, self: ObjectId, out: seq<ObjectId>, visited0: set<ObjectId>, visited: set<ObjectId>) {
    && out != [] && out[0] == self
    && NoDuplicates(out)
    && (forall k :: 0 <= k < |out| ==> out[k] !in visited0)
    && (forall k :: 1 <= k < |out| ==> out[k] in store)
    && visited == visited0 + Elements(out)
    && ChildrenVisited(store, out[1..], visited)
  }

  /** Every role after the first in `out` is one of `roots` or a stored child
      of a role yielded before it (other than the first): each was reached
      from the walk's start through stored sub-roles. */
  ghost predicate ReachedFrom(store: Roles, roots: seq<ObjectId>, out: seq<ObjectId>) {
    forall i :: 1 <= i < |out| ==>
      out[i] in roots || exists j :: 1 <= j < i && out[j] in store && out[i] in store[out[j]].roles
  }

  /** Appending the walk of the child `rid` keeps every yielded role reached. */
  lemma AppendReached(store: Roles, roots: seq<ObjectId>, rid: ObjectId, out: seq<ObjectId>, more: seq<ObjectId>)
    requires rid in store && rid in roots && out != []
    requires ReachedFrom(store, roots, out)
    requires more != [] ==> more[0] == rid
    requires ReachedFrom(store, store[rid].roles, more)
    ensures ReachedFrom(store, roots, out + more)
  {
    var all := out + more;
    forall i | 1 <= i < |all|
      ensures all[i] in roots || exists j :: 1 <= j < i && all[j] in store && all[i] in store[all[j]].roles
    {
      if i < |out| {
        assert all[i] == out[i];
        if all[i] !in roots {
          var j :| 1 <= j < i && out[j] in store && out[i] in store[out[j]].roles;
          assert all[j] == out[j];
        }
      } else {
        var m := i - |out|;
        assert all[i] == more[m];
        if m > 0 {
          assert all[|out|] == rid;
          if more[m] !in store[rid].roles {
            var j :| 1 <= j < m && more[j] in store && more[m] in store[more[j]].roles;
            assert all[|out| + j] == more[j];
          }
        }
      }
    }
  }

  /** Appending the walk of a sub-role keeps the walk's state. */
  lemma AppendWalk(store: Roles, self: ObjectId, out: seq<ObjectId>, more: seq<ObjectId>,
                   visited0: set<ObjectId>, visited: set<ObjectId>, visited': set<ObjectId>)
    requires Walked(store, self, out, visited0, visited)
    requires NoDuplicates(more)
    requires forall k :: 0 <= k < |more| ==> more[k] !in visited && more[k] in store
    requires visited' == visited + Elements(more)
    requires ChildrenVisited(store, more, visited')
    ensures Walked(store, self, out + more, visited0, visited')
  {
    assert Elements(out + more) == Elements(out) + Elements(more);
    assert (out + more)[1..] == out[1..] + more;
    assert forall k :: 0 <= k < |out| ==> out[k] in visited;
  }

  /** Once every stored child of `self` is visited, the whole walk is closed. */
  lemma CloseWalk(store: Roles, self: Role, out: seq<ObjectId>, visited: set<ObjectId>)
    requires out != [] && out[0] == self.id
    requires self.id in store ==> store[self.id] == self
    requires forall j :: 0 <= j < |self.roles| && self.roles[j] in store ==> self.roles[j] in visited
    requires ChildrenVisited(store, out[1..], visited)
    ensures forall c :: c in self.roles && c in store ==> c in visited
    ensures ChildrenVisited(store, out, visited)
  {
    forall k, c | 0 <= k < |out| && out[k] in store && c in store[out[k]].roles && c in store
      ensures c in visited
    {
      if k > 0 {
        assert out[1..][k - 1] == out[k];
      } else {
        var j :| 0 <= j < |self.roles| && self.roles[j] == c;
      }
    }
  }
}
