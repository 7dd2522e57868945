/** The user record and the username-keyed directory (`User` and
    `UserList` in library_app.py). */
module Users {
  import opened Outcomes
  import opened Dict
  import opened Text

  /** The suffix every e-mail address set through the setter must have. */
  const EmailDomain := "@example.com"

  datatype UserError = InvalidEmailAddress | UsernameExists

  class User {
    /** No setter changes the username, so it is a constant. */
    const username: string
    var firstname: string
    var surname: string
    var houseNumber: int
    var streetName: string
    var postcode: string
    var emailAddress: string
    var dateOfBirth: int
    /** The `street_number` attribute that `set_house_number` creates;
        None until that setter runs. */
    var streetNumber: Option<int>

    /** The constructor checks nothing, the e-mail suffix included. */
    constructor (username: string, firstname: string, surname: string, houseNumber: int,
                 streetName: string, postcode: string, emailAddress: string, dateOfBirth: int)
      ensures this.username == username && this.firstname == firstname
      ensures this.surname == surname && this.houseNumber == houseNumber
      ensures this.streetName == streetName && this.postcode == postcode
      ensures this.emailAddress == emailAddress && this.dateOfBirth == dateOfBirth
      ensures this.streetNumber == None
    {
      this.username := username;
      this.firstname := firstname;
      this.surname := surname;
      this.houseNumber := houseNumber;
      this.streetName := streetName;
      this.postcode := postcode;
      this.emailAddress := emailAddress;
      this.dateOfBirth := dateOfBirth;
      this.streetNumber := None;
    }

    method SetFirstname(firstname: string)
      modifies this`firstname
      ensures this.firstname == firstname
    {
      this.firstname := firstname;
    }

    method SetSurname(surname: string)
      modifies this`surname
      ensures this.surname == surname
    {
      this.surname := surname;
    }

    /** Accepts only an address ending in the required domain; a rejected
        address leaves the old one in place. */
    method SetEmailAddress(emailAddress: string) returns (r: Outcome<UserError>)
      modifies this`emailAddress
      ensures r == Pass <==> EndsWith(emailAddress, EmailDomain)
      ensures r != Pass ==> r == Fail(InvalidEmailAddress)
      ensures this.emailAddress == if r == Pass then emailAddress else old(this.emailAddress)
    {
      if !EndsWith(emailAddress, EmailDomain) {
        return Fail(InvalidEmailAddress);
      }
      this.emailAddress := emailAddress;
      return Pass;
    }

    method SetDateOfBirth(dateOfBirth: int)
      modifies this`dateOfBirth
      ensures this.dateOfBirth == dateOfBirth
    {
      this.dateOfBirth := dateOfBirth;
    }

    method SetStreetName(streetName: string)
      modifies this`streetName
      ensures this.streetName == streetName
    {
      this.streetName := streetName;
    }

    /** As written: the value goes to `street_number`, and the house number
        is left as it was. */
    method SetHouseNumber(streetNumber: int)
      modifies this`streetNumber
      ensures this.streetNumber == Some(streetNumber)
      ensures houseNumber == old(houseNumber)
    {
      this.streetNumber := Some(streetNumber);
    }

    /** What the setter is named for: the house number becomes the value. */
    method SetHouseNumberCorrected(houseNumber: int)
      modifies this`houseNumber
      ensures this.houseNumber == houseNumber
    {
      this.houseNumber := houseNumber;
    }

    method SetPostcode(postcode: string)
      modifies this`postcode
      ensures this.postcode == postcode
    {
      this.postcode := postcode;
    }
  }

  /** Setting the house number of a user created with house number 123 to 7
      leaves the house number at 123. */
  method HouseNumberAfterSetter() returns (houseNumber: int)
    ensures houseNumber == 123
  {
    var u := new User("john_doe", "John", "Doe", 123, "Main Street", "AB12 3CD",
                      "johndoe@example.com", 0);
    u.SetHouseNumber(7);
    houseNumber := u.houseNumber;
  }

  /** The same call on the corrected setter gives 7. */
  method HouseNumberAfterCorrectedSetter() returns (houseNumber: int)
    ensures houseNumber == 7
  {
    var u := new User("john_doe", "John", "Doe", 123, "Main Street", "AB12 3CD",
                      "johndoe@example.com", 0);
    u.SetHouseNumberCorrected(7);
    houseNumber := u.houseNumber;
  }

  type UserTable = seq<Entry<string, User>>

  /** The users, in directory order, whose first name is `firstname`. */
  function UsersNamed(d: UserTable, firstname: string): (r: seq<User>)
    reads set i | 0 <= i < |d| :: d[i].value
    ensures |r| <= |d|
    ensures forall j | 0 <= j < |r| :: r[j].firstname == firstname && r[j] in Values(d)
    ensures forall i | 0 <= i < |d| :: d[i].value.firstname == firstname ==> d[i].value in r
  {
    if d == [] then []
    else
      var rest := UsersNamed(d[1..], firstname);
      var r := (if d[0].value.firstname == firstname then [d[0].value] else []) + rest;
      assert forall i | 1 <= i < |d| :: d[i].value == d[1..][i - 1].value;
      assert Values(d) == [d[0].value] + Values(d[1..]);
      r
  }

  /** The list is empty exactly when no entry carries that first name. */
  lemma UsersNamedSome(d: UserTable, firstname: string)
    ensures |UsersNamed(d, firstname)| > 0 <==>
            exists i | 0 <= i < |d| :: d[i].value.firstname == firstname
  {
  }

  /** Two or more users are listed exactly when two different entries of
      the directory carry that first name: the list has one element per
      matching entry. */
  lemma {:induction false} UsersNamedSeveral(d: UserTable, firstname: string)
    ensures |UsersNamed(d, firstname)| > 1 <==>
            exists i, j | 0 <= i < j < |d| ::
              d[i].value.firstname == firstname && d[j].value.firstname == firstname
  {
    if d != [] {
      var t := d[1..];
      UsersNamedSeveral(t, firstname);
      UsersNamedSome(t, firstname);
      if d[0].value.firstname == firstname {
        TailMatches(d, firstname);
      } else {
        TailPairs(d, firstname);
      }
    }
  }

  /** When the first entry matches, a matching pair exists exactly when a
      later entry matches too. */
  lemma TailMatches(d: UserTable, firstname: string)
    requires d != [] && d[0].value.firstname == firstname
    ensures (exists i, j | 0 <= i < j < |d| ::
               d[i].value.firstname == firstname && d[j].value.firstname == firstname)
            <==> exists j | 0 <= j < |d[1..]| :: d[1..][j].value.firstname == firstname
  {
    if exists i, j | 0 <= i < j < |d| ::
         d[i].value.firstname == firstname && d[j].value.firstname == firstname
    {
      var i, j :| 0 <= i < j < |d| && d[i].value.firstname == firstname
                  && d[j].value.firstname == firstname;
      assert d[1..][j - 1] == d[j];
    }
    if exists j | 0 <= j < |d[1..]| :: d[1..][j].value.firstname == firstname {
      var j :| 0 <= j < |d[1..]| && d[1..][j].value.firstname == firstname;
      assert d[j + 1] == d[1..][j];
    }
  }

  /** When the first entry does not match, the matching pairs are those of
      the rest. */
  lemma TailPairs(d: UserTable, firstname: string)
    requires d != [] && d[0].value.firstname != firstname
    ensures (exists i, j | 0 <= i < j < |d| ::
               d[i].value.firstname == firstname && d[j].value.firstname == firstname)
            <==> exists i, j | 0 <= i < j < |d[1..]| ::
               d[1..][i].value.firstname == firstname && d[1..][j].value.firstname == firstname
  {
    if exists i, j | 0 <= i < j < |d| ::
         d[i].value.firstname == firstname && d[j].value.firstname == firstname
    {
      var i, j :| 0 <= i < j < |d| && d[i].value.firstname == firstname
                  && d[j].value.firstname == firstname;
      assert d[1..][i - 1] == d[i] && d[1..][j - 1] == d[j];
    }
    if exists i, j | 0 <= i < j < |d[1..]| ::
         d[1..][i].value.firstname == firstname && d[1..][j].value.firstname == firstname
    {
      var i, j :| 0 <= i < j < |d[1..]| && d[1..][i].value.firstname == firstname
                  && d[1..][j].value.firstname == firstname;
      assert d[i + 1] == d[1..][i] && d[j + 1] == d[1..][j];
    }
  }

  datatype RemoveOutcome = Removed | UserNotFound | MultipleUsersFound

  class UserList {
    /** The `users` dictionary: username -> user. */
    var users: UserTable

    ghost predicate Valid()
      reads this
    {
      DistinctKeys(users) && forall i | 0 <= i < |users| :: users[i].key == users[i].value.username
    }

    constructor ()
      ensures Valid() && users == []
    {
      users := [];
    }

    /** Rejects a username that is already taken, changing nothing;
        otherwise appends the user under its username. */
    method AddUser(user: User) returns (r: Outcome<UserError>)
      requires Valid()
      modifies this
      ensures Valid()
      ensures Has(old(users), user.username) ==> r == Fail(UsernameExists) && users == old(users)
      ensures !Has(old(users), user.username) ==>
                r == Pass && users == old(users) + [Entry(user.username, user)]
    {
      if Has(users, user.username) {
        return Fail(UsernameExists);
      }
      PutSpec(users, user.username, user);
      users := Put(users, user.username, user);
      return Pass;
    }

    /** Removes the user with this first name when there is exactly one;
        with none or several, reports so and changes nothing. */
    method RemoveUserByFirstname(firstname: string) returns (r: RemoveOutcome)
      requires Valid()
      modifies this
      ensures Valid()
      ensures var found := UsersNamed(old(users), firstname);
              && (r == UserNotFound <==> |found| == 0)
              && (r == MultipleUsersFound <==> |found| > 1)
              && (r == MultipleUsersFound <==>
                    exists i, j | 0 <= i < j < |old(users)| ::
                      old(users)[i].value.firstname == firstname && old(users)[j].value.firstname == firstname)
              && (r != Removed ==> users == old(users))
              && (r == Removed ==>
                    && users == Delete(old(users), found[0].username)
                    && |users| == |old(users)| - 1
                    && !Has(users, found[0].username)
                    && forall k | k != found[0].username :: Get(users, k) == Get(old(users), k))
    {
      var found := UsersNamed(users, firstname);
      UsersNamedSeveral(users, firstname);
      if |found| == 0 {
        return UserNotFound;
      } else if |found| > 1 {
        return MultipleUsersFound;
      }
      var i :| 0 <= i < |users| && users[i].value == found[0];
      assert Has(users, found[0].username) by { assert users[i].key == found[0].username; }
      DeleteSpec(users, found[0].username);
      users := Delete(users, found[0].username);
      return Removed;
    }

    function GetNumUsers(): (n: nat)
      reads this
      requires Valid()
      ensures n == |KeySet(users)|
    {
      DistinctKeysCardinality(users);
      |users|
    }

    /** `users.get(username)`: the user registered under that name, or None. */
    function GetUserByUsername(username: string): (r: Option<User>)
      reads this
      requires Valid()
      ensures r.None? <==> !Has(users, username)
      ensures r.Some? ==> r.value.username == username
      ensures r.Some? ==> Entry(username, r.value) in users
    {
      Get(users, username)
    }
  }
}
