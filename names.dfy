/** The ownership test and the two display-name builders of the frontend
    helpers (frontend/src/helpers/utils.tsx). */
module Names {
  import opened Types

  /** Whether `user` owns `obj`: owners are compared by email alone. */
  function IsOwner(user: User, obj: Owned): bool {
    obj.owner.email == user.email
  }

  /** The user who owns a record is its owner, and any two users with the same
      email are told apart by no ownership test. */
  lemma IsOwnerByEmail(u: User, v: User, obj: Owned)
    ensures IsOwner(u, Owned(u))
    ensures IsOwner(u, obj) <==> obj.owner.email == u.email
    ensures u.email == v.email ==> IsOwner(u, obj) == IsOwner(v, obj)
    ensures IsOwner(u, Owned(v)) == IsOwner(v, Owned(u))
  {
  }

  /** `piece` when `field` is present (non-empty), nothing otherwise. */
  function When(field: string, piece: string): string {
    if field != "" then piece else ""
  }

  /** The full display name: the first name and a space, then the username in
      double quotes with a space on each side, then a space and the last name,
      each piece present only when its field is. */
  function FullName(u: User): string {
    When(u.firstName, u.firstName + " ")
      + When(u.username, " \"" + u.username + "\" ")
      + When(u.lastName, " " + u.lastName)
  }

  /** Builds the full name the way the frontend does, appending to an
      initially empty accumulator one present field at a time. */
  method RenderFullName(user: User) returns (nameString: string)
    ensures nameString == FullName(user)
  {
    nameString := "";
    if user.firstName != "" {
      nameString := nameString + (user.firstName + " ");
    }
    assert nameString == When(user.firstName, user.firstName + " ");
    if user.username != "" {
      nameString := nameString + (" \"" + user.username + "\" ");
    }
    assert nameString == When(user.firstName, user.firstName + " ")
      + When(user.username, " \"" + user.username + "\" ");
    if user.lastName != "" {
      nameString := nameString + (" " + user.lastName);
    }
  }

  /** The length of the full name: each present field plus its decoration
      (one space for the first and last name, two spaces and two quotes for
      the username). */
  lemma FullNameLength(u: User)
    ensures |FullName(u)| ==
      (if u.firstName != "" then |u.firstName| + 1 else 0)
      + (if u.username != "" then |u.username| + 4 else 0)
      + (if u.lastName != "" then |u.lastName| + 1 else 0)
  {
  }

  /** With no name fields at all the full name is the empty string, and only then. */
  lemma FullNameEmpty(u: User)
    ensures FullName(u) == "" <==> u.firstName == "" && u.username == "" && u.lastName == ""
  {
  }

  /** Where each field sits in the full name: the first name opens it, the
      quoted username follows right after the first piece, and the last name
      closes it. */
  lemma FullNameLayout(u: User)
    ensures u.firstName != "" ==> FullName(u)[..|u.firstName| + 1] == u.firstName + " "
    ensures u.lastName != "" ==>
      FullName(u)[|FullName(u)| - |u.lastName| - 1..] == " " + u.lastName
    ensures u.username != "" ==>
      var at := if u.firstName != "" then |u.firstName| + 1 else 0;
      FullName(u)[at..at + |u.username| + 4] == " \"" + u.username + "\" "
  {
    var a := When(u.firstName, u.firstName + " ");
    var b := When(u.username, " \"" + u.username + "\" ");
    var c := When(u.lastName, " " + u.lastName);
    assert FullName(u) == a + b + c;
    if u.firstName != "" {
      assert (a + b + c)[..|a|] == a;
    }
    if u.lastName != "" {
      assert (a + b + c)[|a + b|..] == c;
    }
    if u.username != "" {
      assert (a + b + c)[|a|..|a| + |b|] == b;
    }
  }

  /** The short name shown under shared content: the username when there is
      one, otherwise the first name and a space (if present) followed by the
      last name (if present). */
  function Nickname(u: User): string {
    if u.username != "" then u.username
    else When(u.firstName, u.firstName + " ") + When(u.lastName, u.lastName)
  }

  /** Builds the short name the way the frontend does: first and last name
      are appended to an accumulator, and a username then overwrites it. */
  method RenderNickname(user: User) returns (nameString: string)
    ensures nameString == Nickname(user)
    ensures user.username != "" ==> nameString == user.username
  {
    nameString := "";
    if user.firstName != "" {
      nameString := nameString + (user.firstName + " ");
    }
    if user.lastName != "" {
      nameString := nameString + user.lastName;
    }
    if user.username != "" {
      nameString := user.username;
    }
  }

  /** A username decides the short name whatever the other fields hold. */
  lemma NicknameUsernameWins(u: User, first: string, last: string)
    requires u.username != ""
    ensures Nickname(u) == u.username
    ensures Nickname(u.(firstName := first, lastName := last)) == Nickname(u)
  {
  }

  /** Without a username the short name is made of the first and last name
      alone; it is empty exactly when both are absent. */
  lemma NicknameWithoutUsername(u: User)
    requires u.username == ""
    ensures Nickname(u) == When(u.firstName, u.firstName + " ") + u.lastName
    ensures Nickname(u) == "" <==> u.firstName == "" && u.lastName == ""
    ensures |Nickname(u)| == (if u.firstName != "" then |u.firstName| + 1 else 0) + |u.lastName|
  {
  }

  /** Without a username the two builders agree except that the full name puts
      one more space before a last name. */
  lemma NicknameAgainstFullName(u: User)
    requires u.username == ""
    ensures u.lastName == "" ==> FullName(u) == Nickname(u)
    ensures u.lastName != "" ==>
      FullName(u) == When(u.firstName, u.firstName + " ") + " " + u.lastName
      && Nickname(u) == When(u.firstName, u.firstName + " ") + u.lastName
  {
  }
}
