/**
 * Socket.IO room names (server.js:254-263, 272-280): one room for every
 * administrator page, and one per residence and block, named by the same
 * template when a client joins and when the server sends.
 */
module Rooms {

  const AdminRoom: string := "admin-room"

  const StudentRoomPrefix: string := "residence-"
  const StudentRoomInfix: string := "-block-"

  /**
   * `residence-${residence}-block-${block}`: the prefix, the residence, the
   * infix and the block, in that order.
   */
  function StudentRoom(residence: string, block: string): (room: string)
    ensures |room| == 17 + |residence| + |block|
    ensures room[..10] == StudentRoomPrefix
    ensures room[10..10 + |residence|] == residence
    ensures room[10 + |residence|..17 + |residence|] == StudentRoomInfix
    ensures room[17 + |residence|..] == block
  {
    StudentRoomPrefix + residence + StudentRoomInfix + block
  }

  /** No residence and block name the administrators' room. */
  lemma AdminRoomIsNoStudentRoom(residence: string, block: string)
    ensures StudentRoom(residence, block) != AdminRoom
  {
    assert StudentRoom(residence, block)[0] == 'r';
  }

  /** Within one residence the room tells blocks apart, and likewise between residences of equal length. */
  lemma StudentRoomInjectiveForEqualLengths(r1: string, b1: string, r2: string, b2: string)
    requires |r1| == |r2|
    requires StudentRoom(r1, b1) == StudentRoom(r2, b2)
    ensures r1 == r2 && b1 == b2
  {
    var room := StudentRoom(r1, b1);
    assert r1 == room[10..10 + |r1|] == r2;
  }

  /**
   * The template is not injective in general: a residence that itself
   * contains "-block-" produces the room of a different residence and block.
   */
  lemma StudentRoomsCanCollide()
    ensures StudentRoom("A-block-B", "C") == StudentRoom("A", "B-block-C")
  {
  }
}
