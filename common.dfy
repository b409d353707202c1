/** Values shared by the battle server and its browser client: players,
    problems, and the few constants the protocol fixes. */
module Common {

  datatype Option<+T> = None | Some(value: T)

  /** One participant of a room. `id` is the connection identity that also
      keys the player in its room. Scores are JavaScript numbers in the
      source; here they are unbounded integers. */
  datatype Player = Player(
    id: string,
    name: string,
    code: string,
    score: int,
    testsPassedCount: int,
    isReady: bool)

  /** A catalogue problem, reduced to what the room logic reads: its starter
      code and how many hidden test cases it has. */
  datatype Problem = Problem(id: string, starterCode: string, testCaseCount: nat)

  /** The execution service's status id for an accepted test case. */
  const Accepted: int := 3

  /** Points credited per passed test case. */
  const PointsPerCase: int := 10

  /** Length of a battle, in seconds. */
  const BattleSeconds: int := 300

  /** The first entry of the problem catalogue, which every new room gets. */
  const DefaultProblem: Problem :=
    Problem("two-sum",
            "function twoSum(nums: number[], target: number): number[] {\n  // Your code here\n};",
            3)
}
