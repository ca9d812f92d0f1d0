/** Whose turn it is, and which symbol each party plays. 'X' always opens. */
module Turns {
  import opened Grids

  /** The symbol the computer gets when the human picks p: 'O' for 'X', and 'X'
      for anything else. */
  function ComplementOf(p: char): (q: char)
    ensures IsSymbol(q)
    ensures q == 'O' <==> p == 'X'
  {
    if p == 'X' then 'O' else 'X'
  }

  /** On the two symbols, the complement is the other symbol and undoes itself. */
  lemma ComplementPair(p: char)
    requires IsSymbol(p)
    ensures ComplementOf(p) != p && ComplementOf(ComplementOf(p)) == p
    ensures {p, ComplementOf(p)} == {'X', 'O'}
  {
  }

  class TurnManager {
    var playerRole: char
    var computerRole: char
    var playerTurn: bool

    /** The roles are the two symbols, the computer's the complement of the human's. */
    ghost predicate Valid()
      reads this
    {
      IsSymbol(playerRole) && computerRole == ComplementOf(playerRole)
    }

    /** The state that choosing role p produces, whatever came before. */
    ghost predicate ArmedFor(p: char)
      reads this
    {
      playerRole == p && computerRole == ComplementOf(p) && playerTurn == (p == 'X')
    }

    constructor (playerRole: char)
      ensures ArmedFor(playerRole)
      ensures IsSymbol(playerRole) ==> Valid()
    {
      this.playerRole := playerRole;
      this.computerRole := if playerRole == 'X' then 'O' else 'X';
      this.playerTurn := playerRole == 'X';
    }

    /** The symbol of the party due to move: on valid roles it is the human's
        exactly on the human's turn. */
    function GetCurrentRole(): (role: char)
      reads this
      ensures playerTurn ==> role == playerRole
      ensures !playerTurn ==> role == computerRole
      ensures Valid() ==> IsSymbol(role) && (RoleIsPlayer(role) <==> playerTurn)
    {
      if playerTurn then playerRole else computerRole
    }

    /** Hands the move to the other party; the roles stay. */
    method SwitchTurn()
      modifies this`playerTurn
      ensures playerTurn == !old(playerTurn)
      ensures Valid() ==> GetCurrentRole() != old(GetCurrentRole())
    {
      playerTurn := !playerTurn;
      if Valid() {
        ComplementPair(playerRole);
      }
    }

    /** It is the human's turn: the symbol due to move is the human's. */
    function IsPlayerTurn(): (mine: bool)
      reads this
      ensures Valid() ==> (mine <==> GetCurrentRole() == playerRole)
    {
      playerTurn
    }

    /** Gives the human role p and the computer its complement, and recomputes
        the turn from scratch: the human moves first iff p is 'X'. */
    method SetRole(playerRole: char)
      modifies this
      ensures ArmedFor(playerRole)
      ensures IsSymbol(playerRole) ==> Valid()
    {
      this.playerRole := playerRole;
      this.computerRole := if playerRole == 'X' then 'O' else 'X';
      this.playerTurn := playerRole == 'X';
    }

    /** The symbol is the human's; on valid roles, exactly when it is not the computer's. */
    function RoleIsPlayer(role: char): (mine: bool)
      reads this
      ensures mine <==> role == playerRole
      ensures Valid() && IsSymbol(role) ==> (mine <==> role != computerRole)
    {
      role == playerRole
    }
  }

  /** Two switches give the turn back to the party that had it. */
  method SwitchTwiceRestores(t: TurnManager)
    modifies t
    ensures unchanged(t)
    ensures t.playerTurn == old(t.playerTurn) && t.GetCurrentRole() == old(t.GetCurrentRole())
  {
    t.SwitchTurn();
    t.SwitchTurn();
  }

  /** A human who picks 'O' does not open: the computer, playing 'X', moves first. */
  method ChoosingOLetsComputerOpen(t: TurnManager)
    modifies t
    ensures !t.IsPlayerTurn() && t.GetCurrentRole() == 'X' && t.computerRole == 'X'
  {
    t.SetRole('O');
  }
}
