/**
 * The users app's views: signing up (a user and an empty wallet), the
 * personal page's colour offer, buying a colour, and the leaderboard's
 * order and pages.
 */
module UsersViews {
  import opened Wrappers
  import opened UsersModels
  import opened Database
  import opened Http

  /**
   * Signing up. Building the form instantiates a User, whose colour default
   * runs the default-colour lookup (and may insert that colour) whether or
   * not the form turns out valid; a valid form then inserts the user and a
   * wallet with zero balances.
   */
  method SignUp(db: Db, formValid: bool) returns (resp: Response, created: Option<UserId>)
    requires db.Valid()
    modifies db`colors, db`nextColorPk, db`users, db`nextUserPk, db`wallets
    ensures db.Valid()
    ensures ColorLookup(DefaultPkOf(old(db.colors), old(db.nextColorPk)), db.colors, db.nextColorPk)
            == DefaultPk(old(db.colors), old(db.nextColorPk))
    ensures created.Some? <==> formValid && DefaultPk(old(db.colors), old(db.nextColorPk)).pk.Some?
    ensures created.Some? ==>
              && created.value == old(db.nextUserPk) && created.value !in old(db.wallets)
              && db.users == old(db.users) + [User(created.value, DefaultPk(old(db.colors), old(db.nextColorPk)).pk)]
              && db.wallets == old(db.wallets)[created.value := NewWallet()]
              && resp == Redirect(Index)
    ensures created.None? ==>
              && db.users == old(db.users) && db.wallets == old(db.wallets)
              && resp == if DefaultPk(old(db.colors), old(db.nextColorPk)).pk.None? then ServerError else FormInvalid
  {
    var color := db.GetDefaultColorPk();
    if color.None? {
      return ServerError, None;
    }
    if !formValid {
      return FormInvalid, None;
    }
    var u := db.nextUserPk;
    assert !HasUser(db.users, u);
    db.users := db.users + [User(u, color)];
    db.nextUserPk := u + 1;
    assert forall v :: v in old(db.users) ==> v in db.users;
    db.wallets := db.wallets[u := NewWallet()];
    assert User(u, color) in db.users;
    return Redirect(Index), Some(u);
  }

  /** The key the default-colour lookup returns. */
  function DefaultPkOf(cs: seq<Color>, nextPk: nat): Option<ColorId>
    requires ColorsValid(cs, nextPk)
  {
    DefaultPk(cs, nextPk).pk
  }

  /**
   * The colour on offer: among the colours dearer than the user's current
   * one, the cheapest, taking the earliest row on a tie; None when no colour
   * is dearer.
   */
  function OfferedColor(cs: seq<Color>, currentCost: nat): (r: Option<Color>)
    ensures r.Some? ==> r.value in cs && r.value.cost > currentCost
    ensures r.Some? ==> forall c :: c in cs && c.cost > currentCost ==> r.value.cost <= c.cost
    ensures r.None? <==> forall c :: c in cs ==> c.cost <= currentCost
  {
    if cs == [] then None
    else
      var rest := OfferedColor(cs[1..], currentCost);
      assert forall c :: c in cs ==> c == cs[0] || c in cs[1..];
      if cs[0].cost > currentCost && (rest.None? || cs[0].cost <= rest.value.cost) then Some(cs[0])
      else rest
  }

  /**
   * The personal page: the colour on offer given the user's current
   * colour; a user whose colour was cleared makes the page fail.
   */
  method UserMe(db: Db, user: UserId) returns (resp: Response)
    requires db.Valid() && UserIndex(db.users, user).Some?
    ensures var u := db.users[UserIndex(db.users, user).value];
            && (u.color.None? ==> resp == ServerError)
            && (u.color.Some? ==> ColorByPk(db.colors, u.color.value).Some?
                                  && resp == ShowMe(OfferedColor(db.colors, ColorByPk(db.colors, u.color.value).value.cost)))
  {
    var u := db.users[UserIndex(db.users, user).value];
    if u.color.None? {
      return ServerError;
    }
    var current := ColorByPk(db.colors, u.color.value);
    resp := ShowMe(OfferedColor(db.colors, current.value.cost));
  }

  /** Whether buying the colour goes through: it exists, the user has a wallet, and the balance covers the cost. */
  predicate Affordable(cs: seq<Color>, ws: map<UserId, Wallet>, user: UserId, colorPk: ColorId)
  {
    ColorByPk(cs, colorPk).Some? && user in ws && ColorByPk(cs, colorPk).value.cost <= ws[user].currentSum
  }

  /**
   * Buying a colour: 404 for an unknown colour, a failure when the user has
   * no wallet; otherwise the cost is debited and the colour assigned only
   * when the balance covers it, and the user is sent to the personal page
   * either way.
   */
  method ChangeColor(db: Db, user: UserId, colorPk: ColorId) returns (resp: Response)
    requires db.Valid() && UserIndex(db.users, user).Some?
    modifies db`users, db`wallets
    ensures db.Valid()
    ensures resp == if ColorByPk(db.colors, colorPk).None? then NotFound
                    else if user !in old(db.wallets) then ServerError
                    else Redirect(UsersMe)
    ensures Affordable(db.colors, old(db.wallets), user, colorPk) ==>
              var i := UserIndex(old(db.users), user).value;
              && db.wallets == old(db.wallets)[user := Debit(old(db.wallets)[user], ColorByPk(db.colors, colorPk).value.cost)]
              && db.users == old(db.users)[i := User(user, Some(colorPk))]
    ensures !Affordable(db.colors, old(db.wallets), user, colorPk) ==>
              db.wallets == old(db.wallets) && db.users == old(db.users)
  {
    var color := ColorByPk(db.colors, colorPk);
    if color.None? {
      return NotFound;
    }
    if user !in db.wallets {
      return ServerError;
    }
    if color.value.cost <= db.wallets[user].currentSum {
      db.wallets := db.wallets[user := Debit(db.wallets[user], color.value.cost)];
      var i := UserIndex(db.users, user).value;
      ghost var before := db.users;
      db.users := db.users[i := db.users[i].(color := Some(colorPk))];
      forall v | v in db.wallets ensures HasUser(db.users, v) {
        SameKeysSameUsers(before, i, db.users[i], v);
      }
    }
    resp := Redirect(UsersMe);
  }

  /** The leaderboard key: total won, with users without a wallet ranked below everyone. */
  function Rank(ws: map<UserId, Wallet>, u: User): int
  {
    if u.pk in ws then ws[u.pk].totalWon else -1
  }

  predicate SortedByRank(s: seq<User>, ws: map<UserId, Wallet>)
  {
    forall i, j :: 0 <= i < j < |s| ==> Rank(ws, s[i]) >= Rank(ws, s[j])
  }

  /** A user ranked at least as high as everyone in an ordered list can go in front of it. */
  lemma ConsSorted(x: User, s: seq<User>, ws: map<UserId, Wallet>)
    requires SortedByRank(s, ws)
    requires forall y :: y in s ==> Rank(ws, x) >= Rank(ws, y)
    ensures SortedByRank([x] + s, ws)
  {
    var r := [x] + s;
    forall i, j | 0 <= i < j < |r| ensures Rank(ws, r[i]) >= Rank(ws, r[j]) {
      assert r[j] == s[j - 1];
      if i > 0 {
        assert r[i] == s[i - 1];
      }
    }
  }

  /** Insert a user into a list already ordered by rank, highest first. */
  function InsertByRank(u: User, s: seq<User>, ws: map<UserId, Wallet>): (r: seq<User>)
    requires SortedByRank(s, ws)
    ensures SortedByRank(r, ws)
    ensures multiset(r) == multiset(s) + multiset{u}
  {
    if s == [] || Rank(ws, u) >= Rank(ws, s[0]) then
      assert forall y :: y in s ==> Rank(ws, u) >= Rank(ws, y);
      ConsSorted(u, s, ws);
      [u] + s
    else
      var rest := InsertByRank(u, s[1..], ws);
      assert s == [s[0]] + s[1..];
      assert forall y :: y in s[1..] ==> Rank(ws, s[0]) >= Rank(ws, y);
      assert forall y :: y in rest ==> y in multiset(s[1..]) + multiset{u};
      ConsSorted(s[0], rest, ws);
      [s[0]] + rest
  }

  /** `order_by('-wallet__total_won')`: the users, reordered so that rank never increases. */
  function Leaderboard(us: seq<User>, ws: map<UserId, Wallet>): (r: seq<User>)
    ensures SortedByRank(r, ws)
    ensures multiset(r) == multiset(us)
  {
    if us == [] then []
    else
      assert us == [us[0]] + us[1..];
      InsertByRank(us[0], Leaderboard(us[1..], ws), ws)
  }

  /** `paginate_by` of the user list. */
  const PaginateBy: nat := 10

  /** The number of pages: the items split in tens, and one (empty) page when there are none. */
  function NumPages(count: nat): (n: nat)
    ensures n >= 1
    ensures count == 0 ==> n == 1
    ensures count > 0 ==> (n - 1) * PaginateBy < count <= n * PaginateBy
  {
    if count == 0 then 1 else (count + PaginateBy - 1) / PaginateBy
  }

  /** The `page` request parameter: absent, a number, the word "last", or anything else. */
  datatype PageParam = NoPage | Number(n: int) | Last | Malformed

  /** The page asked for; None where the view answers 404 (a malformed or out-of-range page). */
  function PageOf<T>(items: seq<T>, param: PageParam): Option<seq<T>>
  {
    if param.Malformed? then None
    else
      var n := match param
        case NoPage => 1
        case Number(k) => k
        case Last => NumPages(|items|)
        case Malformed => 0;
      if n < 1 || n > NumPages(|items|) then None
      else
        var hi := if n * PaginateBy < |items| then n * PaginateBy else |items|;
        Some(items[(n - 1) * PaginateBy .. hi])
  }

  /** Every page but the last holds exactly ten items; the last holds the rest, at least one unless there are no items. */
  lemma PageSizes<T>(items: seq<T>, n: int)
    requires 1 <= n <= NumPages(|items|)
    ensures PageOf(items, Number(n)).Some?
    ensures n < NumPages(|items|) ==> |PageOf(items, Number(n)).value| == PaginateBy
    ensures n == NumPages(|items|) ==>
              |PageOf(items, Number(n)).value| == |items| - (n - 1) * PaginateBy
              && (|items| > 0 ==> 1 <= |PageOf(items, Number(n)).value| <= PaginateBy)
  {
  }

  /** Item `j` appears on page `j / 10 + 1`, at position `j % 10`. */
  lemma ItemOnItsPage<T>(items: seq<T>, j: nat)
    requires j < |items|
    ensures PageOf(items, Number(j / PaginateBy + 1)).Some?
    ensures PageOf(items, Number(j / PaginateBy + 1)).value[j % PaginateBy] == items[j]
  {
    var n := j / PaginateBy + 1;
    assert (n - 1) * PaginateBy + j % PaginateBy == j;
    assert n <= NumPages(|items|);
  }

  /** Twenty-four users make pages of ten, ten and four, and there is no fourth page. */
  lemma TwentyFourUsers<T>(items: seq<T>)
    requires |items| == 24
    ensures NumPages(|items|) == 3
    ensures |PageOf(items, Number(1)).value| == 10
    ensures |PageOf(items, Number(2)).value| == 10
    ensures |PageOf(items, Number(3)).value| == 4
    ensures PageOf(items, Last) == PageOf(items, Number(3))
    ensures PageOf(items, Number(4)).None? && PageOf(items, Number(0)).None?
  {
  }
}
