/**
 * The desktop client's saved settings: the most-recently-used list of
 * (username, password) pairs, the per-MAC display names and a handful of
 * optional appearance fields. Loading and writing the JSON file is not
 * modelled; only the in-memory updates are.
 */
module Settings {

  datatype Option<T> = None | Some(value: T)

  /** An unsigned 32-bit integer, as the source's `u32` fields. */
  newtype u32 = x: int | 0 <= x < 0x1_0000_0000

  /** One saved credential pair. */
  datatype Account = Account(username: string, password: string)

  /** Position of the first saved entry whose username is `username`, if any. */
  function IndexOfUser(accounts: seq<Account>, username: string): (r: Option<nat>)
    ensures r.Some? ==> r.value < |accounts| && accounts[r.value].username == username
    ensures r.Some? ==> forall j :: 0 <= j < r.value ==> accounts[j].username != username
    ensures r.None? <==> forall j :: 0 <= j < |accounts| ==> accounts[j].username != username
  {
    if |accounts| == 0 then None
    else if accounts[0].username == username then Some(0)
    else match IndexOfUser(accounts[1..], username)
      case None => None
      case Some(i) => Some(i + 1)
  }

  /** Whether some saved entry has this username, whatever its password. */
  function HasUser(accounts: seq<Account>, username: string): (b: bool)
    ensures b <==> exists i :: 0 <= i < |accounts| && accounts[i].username == username
  {
    |accounts| > 0 && (accounts[0].username == username || HasUser(accounts[1..], username))
  }

  /** The set of usernames the list holds. */
  function Usernames(accounts: seq<Account>): set<string>
  {
    set i | 0 <= i < |accounts| :: accounts[i].username
  }

  /** No username is saved twice. */
  predicate UniqueUsernames(accounts: seq<Account>)
  {
    forall i, j :: 0 <= i < j < |accounts| ==> accounts[i].username != accounts[j].username
  }

  /** The list without its `i`-th entry, as `Vec::remove` leaves it. */
  function RemoveAt(accounts: seq<Account>, i: nat): (r: seq<Account>)
    requires i < |accounts|
    ensures |r| == |accounts| - 1
    ensures forall k :: 0 <= k < i ==> r[k] == accounts[k]
    ensures forall k :: i <= k < |r| ==> r[k] == accounts[k + 1]
  {
    accounts[..i] + accounts[i + 1..]
  }

  /**
   * The saved list after a successful login with (username, password): the
   * first entry with that username is taken out and the pair, with the new
   * password, goes to the front; a username not saved yet is prepended.
   */
  function AccountsAfterLogin(accounts: seq<Account>, username: string, password: string): (r: seq<Account>)
    ensures |r| > 0 && r[0] == Account(username, password)
    ensures |r| == if HasUser(accounts, username) then |accounts| else |accounts| + 1
  {
    match IndexOfUser(accounts, username)
    case None => [Account(username, password)] + accounts
    case Some(i) => [Account(username, password)] + RemoveAt(accounts, i)
  }

  /** The pair is already saved: it moves to the front, no password changes. */
  lemma LoginWithSavedPair(accounts: seq<Account>, username: string, password: string, i: nat)
    requires i < |accounts| && accounts[i] == Account(username, password)
    requires forall j :: 0 <= j < i ==> accounts[j].username != username
    ensures AccountsAfterLogin(accounts, username, password) == [accounts[i]] + RemoveAt(accounts, i)
    ensures multiset(AccountsAfterLogin(accounts, username, password)) == multiset(accounts)
  {
    var r := AccountsAfterLogin(accounts, username, password);
    assert IndexOfUser(accounts, username) == Some(i);
    assert accounts == accounts[..i] + [accounts[i]] + accounts[i + 1..];
    calc {
      multiset(r);
      multiset([accounts[i]]) + multiset(accounts[..i] + accounts[i + 1..]);
      multiset(accounts[..i]) + multiset([accounts[i]]) + multiset(accounts[i + 1..]);
      multiset(accounts[..i] + [accounts[i]] + accounts[i + 1..]);
    }
  }

  /** The username is saved with another password: that entry gets the new password and moves to the front. */
  lemma LoginWithChangedPassword(accounts: seq<Account>, username: string, password: string, i: nat)
    requires i < |accounts| && accounts[i].username == username && accounts[i].password != password
    requires forall j :: 0 <= j < i ==> accounts[j].username != username
    ensures |AccountsAfterLogin(accounts, username, password)| == |accounts|
    ensures AccountsAfterLogin(accounts, username, password) == [accounts[i].(password := password)] + RemoveAt(accounts, i)
    ensures multiset(AccountsAfterLogin(accounts, username, password))
         == multiset(accounts) - multiset{accounts[i]} + multiset{Account(username, password)}
  {
    assert IndexOfUser(accounts, username) == Some(i);
    assert accounts == accounts[..i] + [accounts[i]] + accounts[i + 1..];
    assert multiset(accounts) == multiset(accounts[..i]) + multiset{accounts[i]} + multiset(accounts[i + 1..]);
  }

  /** A username not saved yet is prepended and the old list follows unchanged. */
  lemma LoginWithNewUser(accounts: seq<Account>, username: string, password: string)
    requires forall j :: 0 <= j < |accounts| ==> accounts[j].username != username
    ensures AccountsAfterLogin(accounts, username, password)[1..] == accounts
    ensures |AccountsAfterLogin(accounts, username, password)| == |accounts| + 1
  {
  }

  /** After a login the saved usernames are the old ones plus the one used. */
  lemma LoginUsernames(accounts: seq<Account>, username: string, password: string)
    ensures Usernames(AccountsAfterLogin(accounts, username, password)) == Usernames(accounts) + {username}
  {
    var r := AccountsAfterLogin(accounts, username, password);
    forall v | v in Usernames(accounts) + {username}
      ensures v in Usernames(r)
    {
      if v == username {
        assert r[0].username == v;
      } else {
        var k :| 0 <= k < |accounts| && accounts[k].username == v;
        match IndexOfUser(accounts, username)
        case None =>
          assert r[k + 1].username == v;
        case Some(i) =>
          if k < i {
            assert r[k + 1].username == v;
          } else {
            assert k != i;
            assert r[k].username == v;
          }
      }
    }
    forall v | v in Usernames(r)
      ensures v in Usernames(accounts) + {username}
    {
      var k :| 0 <= k < |r| && r[k].username == v;
      if k > 0 {
        match IndexOfUser(accounts, username)
        case None =>
          assert accounts[k - 1].username == v;
        case Some(i) =>
          if k - 1 < i {
            assert accounts[k - 1].username == v;
          } else {
            assert accounts[k].username == v;
          }
      }
    }
  }

  /** A login keeps the usernames pairwise distinct. */
  lemma LoginKeepsUsernamesUnique(accounts: seq<Account>, username: string, password: string)
    requires UniqueUsernames(accounts)
    ensures UniqueUsernames(AccountsAfterLogin(accounts, username, password))
  {
    var r := AccountsAfterLogin(accounts, username, password);
    match IndexOfUser(accounts, username)
    case None =>
      forall a, b | 0 <= a < b < |r|
        ensures r[a].username != r[b].username
      {
        if a > 0 {
          assert r[a] == accounts[a - 1] && r[b] == accounts[b - 1];
        }
      }
    case Some(i) =>
      forall a, b | 0 <= a < b < |r|
        ensures r[a].username != r[b].username
      {
        var b' := if b - 1 < i then b - 1 else b;
        assert r[b] == accounts[b'] && b' != i;
        if a == 0 {
          assert accounts[i].username == username;
        } else {
          var a' := if a - 1 < i then a - 1 else a;
          assert r[a] == accounts[a'] && a' < b';
        }
      }
  }

  /** Logging in twice in a row with the same pair changes nothing the second time. */
  lemma LoginIsIdempotent(accounts: seq<Account>, username: string, password: string)
    ensures AccountsAfterLogin(AccountsAfterLogin(accounts, username, password), username, password)
         == AccountsAfterLogin(accounts, username, password)
  {
    var r := AccountsAfterLogin(accounts, username, password);
    assert IndexOfUser(r, username) == Some(0);
    assert [r[0]] + RemoveAt(r, 0) == r;
  }

  /** The saved settings, updated in place by the client's commands. */
  class Setting {
    var account: seq<Account>
    var ammeterNumber: Option<u32>
    var macCustomName: map<string, string>
    var backgroundImagePath: Option<string>
    var backgroundTransparence: Option<u32>
    var backgroundBlur: Option<u32>
    var collapsed: Option<bool>

    /** The default settings: nothing saved. */
    constructor ()
      ensures account == [] && macCustomName == map[]
      ensures ammeterNumber == None && backgroundImagePath == None
      ensures backgroundTransparence == None && backgroundBlur == None && collapsed == None
    {
      account := [];
      ammeterNumber := None;
      macCustomName := map[];
      backgroundImagePath := None;
      backgroundTransparence := None;
      backgroundBlur := None;
      collapsed := None;
    }

    /** Records a successful login, most recently used first. */
    method SetAccount(username: string, password: string)
      modifies this`account
      ensures account == AccountsAfterLogin(old(account), username, password)
      ensures account[0] == Account(username, password) && HasLocalAccount(username)
      ensures UniqueUsernames(old(account)) ==> UniqueUsernames(account)
    {
      var index := 0;
      while index < |account|
        invariant 0 <= index <= |account|
        invariant account == old(account)
        invariant forall j :: 0 <= j < index ==> account[j].username != username
      {
        var saved := account[index];
        if saved.username == username && saved.password == password {
          assert IndexOfUser(account, username) == Some(index);
          if UniqueUsernames(account) { LoginKeepsUsernamesUnique(account, username, password); }
          var item := account[index];
          account := account[..index] + account[index + 1..];
          account := [item] + account;
          return;
        } else if saved.username == username {
          assert IndexOfUser(account, username) == Some(index);
          if UniqueUsernames(account) { LoginKeepsUsernamesUnique(account, username, password); }
          account := account[index := Account(saved.username, password)];
          var item := account[index];
          account := account[..index] + account[index + 1..];
          account := [item] + account;
          return;
        }
        index := index + 1;
      }
      if UniqueUsernames(account) { LoginKeepsUsernamesUnique(account, username, password); }
      account := [Account(username, password)] + account;
    }

    /** Whether a username is saved, whatever its password. */
    function HasLocalAccount(username: string): (b: bool)
      reads this
      ensures b <==> username in Usernames(account)
    {
      HasUser(account, username)
    }

    /** Remembers the electricity meter number. */
    method SetAmmeterNumber(ammeterNumber: u32)
      modifies this`ammeterNumber
      ensures this.ammeterNumber == Some(ammeterNumber)
    {
      this.ammeterNumber := Some(ammeterNumber);
    }

    /** Forgets the background image; deleting the copied file is not modelled. */
    method ResetBackgroundImage()
      modifies this`backgroundImagePath
      ensures backgroundImagePath == None
    {
      backgroundImagePath := None;
    }

    method SetBackgroundTransparence(backgroundTransparence: u32)
      modifies this`backgroundTransparence
      ensures this.backgroundTransparence == Some(backgroundTransparence)
    {
      this.backgroundTransparence := Some(backgroundTransparence);
    }

    method SetBackgroundBlur(backgroundBlur: u32)
      modifies this`backgroundBlur
      ensures this.backgroundBlur == Some(backgroundBlur)
    {
      this.backgroundBlur := Some(backgroundBlur);
    }

    /**
     * Gives a MAC address a display name: overwrites the name it has, or
     * adds the address when it has none.
     */
    method SetMacCustomName(mac: string, name: string)
      modifies this`macCustomName
      ensures mac in macCustomName && macCustomName[mac] == name
      ensures macCustomName.Keys == old(macCustomName).Keys + {mac}
      ensures forall k :: k in old(macCustomName) && k != mac ==> macCustomName[k] == old(macCustomName)[k]
    {
      if mac in macCustomName {
        macCustomName := macCustomName[mac := name];
      } else {
        macCustomName := macCustomName + map[mac := name];
      }
    }

    method SetCollapsed(collapsed: bool)
      modifies this`collapsed
      ensures this.collapsed == Some(collapsed)
    {
      this.collapsed := Some(collapsed);
    }
  }
}
