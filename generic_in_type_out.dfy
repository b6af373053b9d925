/**
 * The error builder and the server of 2_idioms/2_4_generic_in_type_out/src/main.rs:
 * an error with a code, an HTTP status and a message whose setters change
 * one field and return the error for chaining, and a server that gets its
 * socket address from `bind`.
 */
module GenericInTypeOut {
  import opened Wrappers

  type U8 = x: int | 0 <= x < 0x100
  type U16 = x: int | 0 <= x < 0x1_0000

  class Error {
    var code: string
    var status: U16
    var message: string

    /** Default for Error. */
    constructor Default()
      ensures code == "UNKNOWN" && status == 500 && message == "Unknown error has happened."
    {
      code := "UNKNOWN";
      status := 500;
      message := "Unknown error has happened.";
    }

    /** Error::new: the default error with the code given. */
    constructor New(code: string)
      ensures this.code == code && status == 500 && message == "Unknown error has happened."
    {
      this.code := code;
      status := 500;
      message := "Unknown error has happened.";
    }

    /** Error::status: the status set, code and message kept, and the same error handed back. */
    method Status(s: U16) returns (self: Error)
      modifies this
      ensures self == this && status == s
      ensures code == old(code) && message == old(message)
    {
      status := s;
      self := this;
    }

    /** Error::message: the message set, code and status kept, and the same error handed back. */
    method Message(m: string) returns (self: Error)
      modifies this
      ensures self == this && message == m
      ensures code == old(code) && status == old(status)
    {
      message := m;
      self := this;
    }
  }

  /** An IPv4 address of four octets, or an IPv6 address of eight 16-bit segments. */
  datatype IpAddr = V4(octets: seq<U8>) | V6(segments: seq<U16>) {
    predicate Valid() {
      match this
      case V4(octets) => |octets| == 4
      case V6(segments) => |segments| == 8
    }
  }

  datatype SocketAddr = SocketAddr(ip: IpAddr, port: U16)

  class Server {
    var address: Option<SocketAddr>

    /** Server::new: no address yet. */
    constructor ()
      ensures address == None
    {
      address := None;
    }

    /** Server::bind: the address becomes the one given, whatever it was. */
    method Bind(ip: IpAddr, port: U16)
      requires ip.Valid()
      modifies this
      ensures address == Some(SocketAddr(ip, port))
    {
      address := Some(SocketAddr(ip, port));
    }
  }

  /** main: a chained status and message on a new error, which keeps its code. */
  method MainScenario() returns (code: string, status: U16, message: string)
    ensures code == "NO_USER" && status == 404 && message == "User not found"
  {
    var err := new Error.New("NO_USER");
    var chained := err.Status(404);
    chained := chained.Message("User not found");
    code, status, message := chained.code, chained.status, chained.message;
  }

  /** The test sets_provided_address_to_server: a second bind replaces the first address. */
  method BindScenario() returns (first: Option<SocketAddr>, second: Option<SocketAddr>)
    ensures first == Some(SocketAddr(V4([127, 0, 0, 1]), 8080))
    ensures second == Some(SocketAddr(V6([0, 0, 0, 0, 0, 0, 0, 1]), 9911))
  {
    var server := new Server();
    server.Bind(V4([127, 0, 0, 1]), 8080);
    first := server.address;
    server.Bind(V6([0, 0, 0, 0, 0, 0, 0, 1]), 9911);
    second := server.address;
  }
}
