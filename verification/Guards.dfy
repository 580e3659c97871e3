/** Guards for invariants.  A proof that merely passes an invariant on is cheaper when the solver does not look
    inside it, so the larger ones are stated as `forall n {:trigger Open(G, n)} :: Open(G, n) ==> ...`: the
    same fact, but the solver sees the clauses only where a proof says `assert Open(G, 0)`. */
module Guards {
  datatype Guard = OnKeys | OnTables | OnBudget | OnBoot | OnArenas | OnOwners | OnNaming | OnRows | OnPlaces | OnDevice

  ghost predicate Open(g: Guard, n: int) { true }
}
