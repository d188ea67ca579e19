/** A player's identity and score. Identity fields are fixed at construction;
    the score is raised and reset in place by the simulation. */
module Players {

  datatype NodeRole = Normal | Master | Deputy | Viewer

  datatype PlayerType = Human | Robot

  /** Java's 16-bit `short`. */
  type Short = n: int | -0x8000 <= n < 0x8000

  class PlayerInfo {
    const name: string
    const id: int
    const ipAddress: string
    const port: Short
    var role: NodeRole
    const playerType: PlayerType
    var score: int

    /** The score starts at zero and only ever grows by one or resets. */
    ghost predicate Valid()
      reads this
    {
      score >= 0
    }

    constructor (name: string, id: int, ipAddress: string, port: Short, role: NodeRole, playerType: PlayerType)
      ensures this.name == name && this.id == id && this.ipAddress == ipAddress
      ensures this.port == port && this.role == role && this.playerType == playerType
      ensures score == 0 && Valid()
    {
      this.name := name;
      this.id := id;
      this.ipAddress := ipAddress;
      this.port := port;
      this.role := role;
      this.playerType := playerType;
      score := 0;
    }

    method GetScore() returns (s: int)
      ensures s == score
    {
      s := score;
    }

    method IncrementScore()
      requires Valid()
      modifies this`score
      ensures score == old(score) + 1
      ensures Valid()
    {
      score := score + 1;
    }

    /** Resets the score to zero from any value; a second call changes nothing. */
    method NullifyScore()
      modifies this`score
      ensures score == 0
      ensures Valid()
    {
      score := 0;
    }
  }
}
