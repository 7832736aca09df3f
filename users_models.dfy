/**
 * The users app's models: the cosmetic Color a user can buy, the User's
 * nullable reference to it, and the reward Wallet with its check constraint.
 */
module UsersModels {
  import opened Wrappers

  type UserId = nat
  type ColorId = nat

  /** Hex code and cost of the colour every new user gets. */
  const DefaultHex: string := "D8BFD8"
  const DefaultCost: nat := 0
  /** `max_length` of `Color.hex_code`. */
  const HexMaxLength: nat := 6

  /** A row of the colour table; `cost` is a non-negative integer column. */
  datatype Color = Color(pk: ColorId, hexCode: string, cost: nat)

  /** A row of the user table; `color` is a nullable foreign key. */
  datatype User = User(pk: UserId, color: Option<ColorId>)

  /** A wallet row; its owner is the key the wallet is stored under. */
  datatype Wallet = Wallet(totalWon: nat, currentSum: nat)

  /** The check constraint `check_current_sum`. */
  predicate WalletValid(w: Wallet)
  {
    w.currentSum <= w.totalWon
  }

  /** The wallet created with every counter at its default. */
  function NewWallet(): (w: Wallet)
    ensures WalletValid(w)
    ensures w.totalWon == 0 && w.currentSum == 0
  {
    Wallet(0, 0)
  }

  /** The reward update: `prize` added to both counters in one statement. */
  function Credit(w: Wallet, prize: nat): (r: Wallet)
    ensures WalletValid(w) ==> WalletValid(r)
    ensures r.currentSum >= w.currentSum && r.totalWon >= w.totalWon
    ensures r.totalWon - r.currentSum == w.totalWon - w.currentSum
    ensures r.currentSum - w.currentSum == prize
  {
    Wallet(w.totalWon + prize, w.currentSum + prize)
  }

  /** The purchase update: `cost` taken from the balance, only reached when the balance covers it. */
  function Debit(w: Wallet, cost: nat): (r: Wallet)
    requires cost <= w.currentSum
    ensures WalletValid(w) ==> WalletValid(r)
    ensures r.totalWon == w.totalWon
    ensures r.currentSum + cost == w.currentSum
  {
    Wallet(w.totalWon, w.currentSum - cost)
  }

  /**
   * The colour table's constraints: hex codes are unique and at most six
   * characters long; primary keys ascend in insertion order and stay below
   * the next key to be handed out.
   */
  predicate ColorsValid(cs: seq<Color>, nextPk: nat)
  {
    && (forall i :: 0 <= i < |cs| ==> |cs[i].hexCode| <= HexMaxLength && cs[i].pk < nextPk)
    && (forall i, j :: 0 <= i < j < |cs| ==> cs[i].pk < cs[j].pk && cs[i].hexCode != cs[j].hexCode)
  }

  /** Whether a colour with this primary key exists. */
  predicate HasColor(cs: seq<Color>, pk: ColorId)
  {
    exists c :: c in cs && c.pk == pk
  }

  /** Lookup of a colour by primary key; None where the view answers 404. */
  function ColorByPk(cs: seq<Color>, pk: ColorId): (r: Option<Color>)
    ensures r.Some? ==> r.value in cs && r.value.pk == pk
    ensures r.None? <==> !HasColor(cs, pk)
  {
    if cs == [] then None
    else if cs[0].pk == pk then Some(cs[0])
    else ColorByPk(cs[1..], pk)
  }

  /** Position of the colour with the given hex code, if any. */
  function IndexOfHex(cs: seq<Color>, hex: string): (r: Option<nat>)
    ensures r.Some? ==> r.value < |cs| && cs[r.value].hexCode == hex
    ensures r.None? ==> forall i :: 0 <= i < |cs| ==> cs[i].hexCode != hex
  {
    if cs == [] then None
    else if cs[0].hexCode == hex then Some(0)
    else match IndexOfHex(cs[1..], hex)
      case None => None
      case Some(k) => Some(k + 1)
  }

  /** What a get-or-create on the colour table returns and leaves behind. */
  datatype ColorLookup = ColorLookup(pk: Option<ColorId>, colors: seq<Color>, nextPk: nat)

  /**
   * `get_or_create(hex_code='D8BFD8', cost=0)`: the existing default colour,
   * or a new row when no colour has that hex code; when the hex code is
   * taken at another cost the insert breaks the uniqueness constraint and
   * the lookup fails (None).
   */
  function DefaultPk(cs: seq<Color>, nextPk: nat): (r: ColorLookup)
    requires ColorsValid(cs, nextPk)
    ensures ColorsValid(r.colors, r.nextPk)
    ensures r.pk.Some? <==> forall c :: c in cs && c.hexCode == DefaultHex ==> c.cost == DefaultCost
    ensures r.pk.Some? ==> Color(r.pk.value, DefaultHex, DefaultCost) in r.colors
    ensures r.pk.None? || Color(r.pk.value, DefaultHex, DefaultCost) in cs ==> r.colors == cs && r.nextPk == nextPk
    ensures r.colors == cs || r.colors == cs + [Color(nextPk, DefaultHex, DefaultCost)]
  {
    match IndexOfHex(cs, DefaultHex)
    case None =>
      ColorLookup(Some(nextPk), cs + [Color(nextPk, DefaultHex, DefaultCost)], nextPk + 1)
    case Some(i) =>
      if cs[i].cost == DefaultCost then ColorLookup(Some(cs[i].pk), cs, nextPk)
      else ColorLookup(None, cs, nextPk)
  }

  /** Repeated calls of the default-colour lookup return the same key and insert nothing more. */
  lemma DefaultPkIdempotent(cs: seq<Color>, nextPk: nat)
    requires ColorsValid(cs, nextPk)
    requires DefaultPk(cs, nextPk).pk.Some?
    ensures var r := DefaultPk(cs, nextPk);
            DefaultPk(r.colors, r.nextPk) == r
  {
    var r := DefaultPk(cs, nextPk);
    if IndexOfHex(cs, DefaultHex).None? {
      var k := |cs|;
      assert r.colors[k].hexCode == DefaultHex;
      var j := IndexOfHex(r.colors, DefaultHex);
      assert j.Some? && j.value == k;
    }
  }

  /** The user table: primary keys ascend and stay below the next key; a colour a user points at exists. */
  predicate UsersValid(us: seq<User>, nextPk: nat, cs: seq<Color>)
  {
    && (forall i :: 0 <= i < |us| ==> us[i].pk < nextPk && (us[i].color.Some? ==> HasColor(cs, us[i].color.value)))
    && (forall i, j :: 0 <= i < j < |us| ==> us[i].pk < us[j].pk)
  }

  /** Position of the user with this primary key, if any. */
  function UserIndex(us: seq<User>, pk: UserId): (r: Option<nat>)
    ensures r.Some? ==> r.value < |us| && us[r.value].pk == pk
    ensures r.None? ==> forall i :: 0 <= i < |us| ==> us[i].pk != pk
  {
    if us == [] then None
    else if us[0].pk == pk then Some(0)
    else match UserIndex(us[1..], pk)
      case None => None
      case Some(k) => Some(k + 1)
  }

  /**
   * Every wallet satisfies the check constraint and belongs to an existing
   * user; the one-to-one owner field is the map's key, so a user owns at
   * most one wallet.
   */
  predicate WalletsValid(ws: map<UserId, Wallet>, us: seq<User>)
  {
    forall u :: u in ws ==> WalletValid(ws[u]) && HasUser(us, u)
  }

  /** Whether a user with this primary key exists. */
  predicate HasUser(us: seq<User>, pk: UserId)
  {
    exists v :: v in us && v.pk == pk
  }

  /** Changing a user row without touching its key keeps the set of existing users. */
  lemma SameKeysSameUsers(us: seq<User>, i: nat, v: User, pk: UserId)
    requires i < |us| && v.pk == us[i].pk
    ensures HasUser(us[i := v], pk) <==> HasUser(us, pk)
  {
    var after := us[i := v];
    if HasUser(us, pk) {
      var w :| w in us && w.pk == pk;
      var j :| 0 <= j < |us| && us[j] == w;
      assert after[j].pk == pk;
    }
    if HasUser(after, pk) {
      var w :| w in after && w.pk == pk;
      var j :| 0 <= j < |after| && after[j] == w;
      assert us[j].pk == pk;
    }
  }
}
