/** The child accounts the game and the shop read and update. Accounts are
    keyed by their unique name, which is how every service looks them up.
 */
module Users {

  /** The two point balances: `totalPoints` only ever grows (finished levels),
      `availablePoints` also shrinks when the child buys a cosmetic. */
  datatype User = User(totalPoints: int, availablePoints: int)

  type UserTable = map<string, User>

  /** Adds `points` to both balances of one account. */
  function Credit(users: UserTable, name: string, points: int): (r: UserTable)
    requires name in users
    ensures r.Keys == users.Keys
    ensures r[name].totalPoints - users[name].totalPoints == points
    ensures r[name].availablePoints - users[name].availablePoints == points
    ensures forall other :: other in users && other != name ==> r[other] == users[other]
  {
    users[name := User(users[name].totalPoints + points, users[name].availablePoints + points)]
  }

  /** Every balance lies between zero and the points the child has ever
      earned. */
  predicate BalancesOk(users: UserTable) {
    forall name :: name in users ==> 0 <= users[name].availablePoints <= users[name].totalPoints
  }

  /** Crediting points that are not negative keeps every balance in range. */
  lemma CreditKeepsBalances(users: UserTable, name: string, points: int)
    requires name in users && BalancesOk(users) && points >= 0
    ensures BalancesOk(Credit(users, name, points))
  {
  }
}
