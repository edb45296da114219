/**
 * The two records the bot works on: a chat message as it is left after
 * deserialisation and the whitespace filter, and a sale parsed from one.
 */
module Messages {

  /** One message of the group, newest first in every list the service returns. */
  datatype Message = Message(text: string, userName: string, createdAt: int, id: string)

  /** A sale: the amount in cents (always whole cents, see SaleParser) and its author. */
  datatype Sale = Sale(amount: nat, userName: string)
}
