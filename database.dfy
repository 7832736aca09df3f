/**
 * The database as one object: every table the core reads or writes, and
 * the constraints the schema and the views keep between them.
 */
module Database {
  import opened Wrappers
  import opened UsersModels
  import opened CoreModels

  class Db {
    var colors: seq<Color>
    var nextColorPk: nat
    var users: seq<User>
    var nextUserPk: nat
    var wallets: map<UserId, Wallet>
    /** Tests with their questions, and each answer's `correct` flag; edited only through the admin, so fixed here. */
    const tests: map<TestId, Test>
    const answers: map<AnswerId, bool>
    var attempts: seq<Attempt>
    /** Every reward paid out so far, as (user, test) pairs. */
    ghost var rewarded: seq<(UserId, TestId)>

    ghost predicate Valid()
      reads this
    {
      && ColorsValid(colors, nextColorPk)
      && UsersValid(users, nextUserPk, colors)
      && WalletsValid(wallets, users)
      && AttemptsValid(attempts, tests, answers)
      && RewardsValid(rewarded, attempts)
    }

    /** An empty database over a fixed set of tests and answers. */
    constructor (tests: map<TestId, Test>, answers: map<AnswerId, bool>)
      ensures Valid()
      ensures this.tests == tests && this.answers == answers
      ensures colors == [] && users == [] && wallets == map[] && attempts == [] && rewarded == []
    {
      this.tests := tests;
      this.answers := answers;
      colors, nextColorPk := [], 0;
      users, nextUserPk := [], 0;
      wallets := map[];
      attempts := [];
      rewarded := [];
    }

    /**
     * `Color.get_default_pk`: the key of the colour D8BFD8 at cost 0,
     * inserting it when no colour has that hex code; None when the hex code
     * is taken at another cost (the insert breaks the unique constraint).
     */
    method GetDefaultColorPk() returns (pk: Option<ColorId>)
      requires Valid()
      modifies this`colors, this`nextColorPk
      ensures Valid()
      ensures DefaultPk(old(colors), old(nextColorPk)) == ColorLookup(pk, colors, nextColorPk)
    {
      var i := IndexOfHex(colors, DefaultHex);
      if i.None? {
        pk := Some(nextColorPk);
        colors := colors + [Color(nextColorPk, DefaultHex, DefaultCost)];
        nextColorPk := nextColorPk + 1;
      } else if colors[i.value].cost == DefaultCost {
        pk := Some(colors[i.value].pk);
      } else {
        pk := None;
      }
      assert forall c :: c in old(colors) ==> c in colors;
    }

    /**
     * Adding a colour as the admin does: refused when the hex code is longer
     * than six characters or already taken; otherwise inserted with the next
     * key.
     */
    method CreateColor(hex: string, cost: nat) returns (pk: Option<ColorId>)
      requires Valid()
      modifies this`colors, this`nextColorPk
      ensures Valid()
      ensures pk.Some? <==> |hex| <= HexMaxLength && IndexOfHex(old(colors), hex).None?
      ensures pk.Some? ==> pk.value == old(nextColorPk) && colors == old(colors) + [Color(pk.value, hex, cost)]
      ensures pk.None? ==> colors == old(colors) && nextColorPk == old(nextColorPk)
    {
      if |hex| > HexMaxLength || IndexOfHex(colors, hex).Some? {
        return None;
      }
      pk := Some(nextColorPk);
      colors := colors + [Color(nextColorPk, hex, cost)];
      nextColorPk := nextColorPk + 1;
      assert forall c :: c in old(colors) ==> c in colors;
    }
  }
}
